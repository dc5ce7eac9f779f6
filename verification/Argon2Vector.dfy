/**
 The vector segment fillers, SSSE3 and AVX2. They keep the previous block in registers
 instead of loading it, and leave the memory exactly as the scalar filler does. The two
 differ in the width of the registers alone.
 */
module Argon2Vector {
  import opened Machine
  import opened Argon2Index
  import opened Argon2Segment
  import opened Argon2Fill
  import opened BlaMka
  import opened Argon2Block
  import opened Argon2Simd

  function BlockWord(b: Block, k: nat): u64 {
    if k < 128 then b[k] as int else 0
  }

  function ToWord(x: nat): Word { Wrap64(x) as Word }

  /** The input block of `generate_addresses`. */
  function InputBlock(inst: Instance, pass: nat, lane: nat, slice: nat, counter: nat): Block {
    var words := [ToWord(pass), ToWord(lane), ToWord(slice), ToWord(inst.memoryBlocks), ToWord(inst.passes),
                  if inst.hybrid then 2 else 1, ToWord(counter)];
    Tabulate((j: nat) requires j < 128 => if j < 7 then words[j] else 0)
  }

  /** The block operations of Argon2, made of the compression function. */
  function Operations(): Compression<Block> {
    Compression(Compress, CompressXor, BlockWord, ZERO_BLOCK, InputBlock)
  }

  lemma OperationsAre(p: Block, r: Block, o: Block)
    ensures Operations().fill(p, r) == Compress(p, r)
    ensures Operations().fillXor(p, r, o) == CompressXor(p, r, o)
  {
  }

  /** Section 3.4.1.2 of RFC 9106: the seven words Z of the input block, with type 1 for Argon2i and 2 for Argon2id,
      and zeros after them. */
  lemma InputIsRfc(inst: Instance, pass: nat, lane: nat, slice: nat, counter: nat)
    ensures var z := InputBlock(inst, pass, lane, slice, counter);
            && z[0] == ToWord(pass) && z[1] == ToWord(lane) && z[2] == ToWord(slice)
            && z[3] == ToWord(inst.memoryBlocks) && z[4] == ToWord(inst.passes)
            && z[5] == (if inst.hybrid then 2 else 1) && z[6] == ToWord(counter)
            && forall j :: 7 <= j < 128 ==> z[j] == 0
  {
    hide ToWord;
  }

  lemma WordExamples()
    ensures ToWord(0) == 0 && ToWord(1) == 1 && ToWord(0xABCD) == 0xABCD
  {
  }

  /** The address block is G(ZERO, G(ZERO, Z)): folding into a zero block changes nothing. */
  lemma AddressIsRfc(inst: Instance, pos: Position, counter: nat)
    ensures forall j :: 0 <= j < 128 ==> ZERO_BLOCK[j] == 0
    ensures Operations().AddressBlock(inst, pos, counter)
            == Compress(ZERO_BLOCK, Compress(ZERO_BLOCK, InputBlock(inst, pos.pass, pos.lane, pos.slice, counter)))
    ensures forall b: Block, k :: 0 <= k < 128 ==> Operations().word(b, k) == b[k] as int
  {
    hide Compress, InputBlock;
    var z := InputBlock(inst, pos.pass, pos.lane, pos.slice, counter);
    FoldedIntoZero(z);
    FoldedIntoZero(Compress(ZERO_BLOCK, z));
  }

  lemma FoldedIntoZero(x: Block)
    ensures CompressXor(ZERO_BLOCK, x, ZERO_BLOCK) == Compress(ZERO_BLOCK, x)
  {
    hide Compress;
    var c, s := Compress(ZERO_BLOCK, x), CompressXor(ZERO_BLOCK, x, ZERO_BLOCK);
    forall j | 0 <= j < 128 ensures s[j] == c[j] {
      XorZero(c[j]);
    }
  }

  lemma XorZero(x: Word)
    ensures BlaMka.Xor(x, 0) == x
  {
  }

  lemma AddressOf(inst: Instance, position: Position, i: nat)
    ensures Operations().Address(inst, position.(index := i))
            == BlockWord(Operations().AddressBlock(inst, position, i / ADDRESSES_IN_BLOCK + 1), i % ADDRESSES_IN_BLOCK)
  {
    hide Compress, CompressXor, InputBlock, BlockWord;
  }

  /** The register array of a filler: 64 of 128 bits or 32 of 256 bits. */
  class State {
    const wide: bool
    const narrow: array<Reg>
    const broad: array<Row>

    /** The registers hold the block `v`. */
    ghost predicate Keeps(v: Block)
      reads narrow, broad
    {
      if wide then broad.Length == 32 && HoldsWide(broad[..], v) else narrow.Length == 64 && Holds(narrow[..], v)
    }

    /** The `memcpy` or `memset` that sets the registers. */
    constructor (wide: bool, b: Block)
      ensures this.wide == wide && Keeps(b) && fresh(narrow) && fresh(broad)
    {
      hide RegOf, WideOf;
      this.wide := wide;
      narrow := new Reg[if wide then 0 else 64](k requires 0 <= k < if wide then 0 else 64 => RegOf(b, k));
      broad := new Row[if wide then 32 else 0](k requires 0 <= k < if wide then 32 else 0 => WideOf(b, k));
    }

    /** `fill_block`. */
    method Fill(refBlock: Block, ghost prev: Block) returns (next: Block)
      requires Keeps(prev)
      modifies narrow, broad
      ensures next == Compress(prev, refBlock) && Keeps(next)
    {
      hide Compress, Holds, HoldsWide;
      if wide {
        next := FillBlockAvx2(broad, refBlock, prev);
      } else {
        next := FillBlockSsse3(narrow, refBlock, prev);
      }
    }

    /** `fill_block_with_xor`. */
    method FillXor(refBlock: Block, nextBlock: Block, ghost prev: Block) returns (next: Block)
      requires Keeps(prev)
      modifies narrow, broad
      ensures next == CompressXor(prev, refBlock, nextBlock) && Keeps(next)
    {
      hide CompressXor, Holds, HoldsWide;
      if wide {
        next := FillBlockWithXorAvx2(broad, refBlock, nextBlock, prev);
      } else {
        next := FillBlockWithXorSsse3(narrow, refBlock, nextBlock, prev);
      }
    }
  }

  /** `generate_addresses` of the vector fillers: the register state starts from zero each time. */
  method GenerateAddresses(region: Region<Block>, position: Position, wide: bool)
    requires region.Valid() && region.c == Operations()
    modifies region.pseudoRands
    ensures forall i :: 0 <= i < region.inst.segmentLength ==>
              region.pseudoRands[i] == Operations().Address(region.inst, position.(index := i))
  {
    hide Operations, Compression.AddressBlock, Compression.Address, BlockWord;
    var inst := region.inst;
    var counter := 0;
    var addressBlock := ZERO_BLOCK;
    var i := 0;
    while i < inst.segmentLength
      invariant 0 <= i <= inst.segmentLength
      invariant counter == (i + ADDRESSES_IN_BLOCK - 1) / ADDRESSES_IN_BLOCK
      invariant i > 0 ==> addressBlock == Operations().AddressBlock(inst, position, counter)
      invariant forall k :: 0 <= k < i ==> region.pseudoRands[k] == Operations().Address(inst, position.(index := k))
    {
      if i % ADDRESSES_IN_BLOCK == 0 {
        counter := counter + 1;
        addressBlock := NextAddressBlock(inst, position, counter, wide);
      }
      assert counter == i / ADDRESSES_IN_BLOCK + 1;
      AddressOf(inst, position, i);
      region.pseudoRands[i] := BlockWord(addressBlock, i % ADDRESSES_IN_BLOCK);
      i := i + 1;
    }
  }

  method NextAddressBlock(inst: Instance, position: Position, counter: nat, wide: bool) returns (addressBlock: Block)
    ensures addressBlock == Operations().AddressBlock(inst, position, counter)
  {
    hide Compress, CompressXor, InputBlock, BlockWord;
    var input := InputBlock(inst, position.pass, position.lane, position.slice, counter);
    var zero := new State(wide, ZERO_BLOCK);
    var zero2 := new State(wide, ZERO_BLOCK);
    var tmp := zero.FillXor(input, ZERO_BLOCK, ZERO_BLOCK);
    addressBlock := zero2.FillXor(tmp, ZERO_BLOCK, ZERO_BLOCK);
  }

  /** The cyclic predecessor of `pos`. */
  ghost function Previous(inst: Instance, mem: seq<Block>, pos: Position): Block
    requires inst.Valid() && pos.In(inst) && |mem| == inst.memoryBlocks
  {
    ReadsAllowed(inst, pos, 0);
    OffRange(inst, pos.lane, PrevColumn(inst, pos));
    mem[Off(inst, pos.lane, PrevColumn(inst, pos))]
  }

  /** `argon2_fill_segment_ssse3` and `argon2_fill_segment_avx2`: the same memory as `argon2_fill_segment_ref`. */
  method FillSegment(region: Region<Block>, position: Position, wide: bool)
    requires region.Valid() && region.c == Operations()
    requires position.lane < region.inst.lanes && position.slice < SYNC_POINTS
    requires region.Ready(position.pass, position.slice)
    modifies region.memory, region.pseudoRands, region`trace
    ensures SegmentFilled(Operations(), region.inst, position.pass, position.slice, position.lane,
                          old(region.memory[..]), region.memory[..])
    ensures region.trace == old(region.trace)
                            + SegmentTrace(region.inst, position.pass, position.slice, position.lane,
                                           region.inst.segmentLength)
  {
    hide FinalBlock, NewBlock, Progressed, Partial, Off, PrevColumn, Region.OffsetsAt, Position.Column,
      Compression.Address, ReadyAfter, Operations, Previous, State.Keeps, Region.Filling, Fresh, SegmentTrace,
      SegmentFilled;
    var inst := region.inst;
    ghost var m0, trace0 := region.memory[..], region.trace;
    var dataIndependent := true;
    if inst.hybrid && (position.pass != 0 || position.slice >= SYNC_POINTS / 2) {
      dataIndependent := false;
    }
    if dataIndependent {
      GenerateAddresses(region, position, wide);
    }
    var i: nat, currOffset: u32, prevOffset: u32 := region.FirstOffsets(position);
    region.StartFilling(m0, trace0, position, i);
    var state := LoadState(region, position.(index := i), prevOffset, wide);
    while i < inst.segmentLength
      invariant StartIndex(position.pass, position.slice) <= i <= inst.segmentLength
      invariant region.OffsetsAt(position.(index := i), currOffset, prevOffset)
      invariant region.Filling(m0, trace0, position.(index := i))
      invariant fresh(state.narrow) && fresh(state.broad)
      invariant i < inst.segmentLength ==> state.Keeps(Previous(inst, region.memory[..], position.(index := i)))
      invariant dataIndependent ==>
                  forall k :: 0 <= k < inst.segmentLength ==>
                    region.pseudoRands[k] == Operations().Address(inst, position.(index := k))
    {
      ghost var mem, pos, prev, curr := region.memory[..], position.(index := i), prevOffset, currOffset;
      region.FillingIs(m0, trace0, pos);
      i, currOffset, prevOffset := FillNext(region, state, dataIndependent, position, i, currOffset, prevOffset);
      region.FilledNext(m0, trace0, pos, mem, prev, curr);
    }
    region.FillingDone(m0, trace0, position);
  }

  /** The `memcpy` of the block before the segment; it has been written in every case. */
  method LoadState(region: Region<Block>, pos: Position, prevOffset: u32, wide: bool) returns (state: State)
    requires region.Valid() && pos.lane < region.inst.lanes && pos.slice < SYNC_POINTS
    requires pos.index == StartIndex(pos.pass, pos.slice) && region.Ready(pos.pass, pos.slice)
    requires prevOffset == Off(region.inst, pos.lane, PrevColumn(region.inst, pos))
    ensures fresh(state.narrow) && fresh(state.broad)
    ensures pos.In(region.inst) ==> state.Keeps(Previous(region.inst, region.memory[..], pos))
  {
    hide State.Keeps, IndexAlpha, Off, PrevColumn, ReadyAfter;
    region.FirstPreviousReady(pos);
    OffRange(region.inst, pos.lane, PrevColumn(region.inst, pos));
    var b := region.Load(prevOffset);
    state := new State(wide, b);
  }

  ghost function Built(region: Region<Block>, mem: seq<Block>, position: Position, i: nat): Block
    requires region.Valid() && position.(index := i).In(region.inst) && |mem| == region.inst.memoryBlocks
  {
    NewBlock(region.c, region.inst, mem, position.(index := i))
  }

  method FillNext(region: Region<Block>, state: State, dataIndependent: bool, position: Position, i: nat,
                  currOffset: u32, prevOffset_: u32)
    returns (i': nat, currOffset': u32, prevOffset': u32)
    requires region.Valid() && position.(index := i).In(region.inst)
    requires region.OffsetsAt(position.(index := i), currOffset, prevOffset_)
    requires region.Ready(position.pass, position.slice) && region.OwnReady(position.(index := i))
    requires dataIndependent == DataIndependent(region.inst, position)
    requires dataIndependent ==> region.pseudoRands[i] == region.c.Address(region.inst, position.(index := i))
    requires state.Keeps(Previous(region.inst, region.memory[..], position.(index := i)))
    requires region.c == Operations()
    modifies region.memory, region`trace, state.narrow, state.broad
    ensures i' == i + 1 && currOffset < region.memory.Length
    ensures region.OffsetsAt(position.(index := i'), currOffset', prevOffset')
    ensures region.trace == old(region.trace) + [currOffset]
    ensures region.memory[..]
            == old(region.memory[..])[currOffset := Built(region, old(region.memory[..]), position, i)]
    ensures i' < region.inst.segmentLength ==>
              state.Keeps(Previous(region.inst, region.memory[..], position.(index := i')))
  {
    hide FinalBlock, NewBlock, Off, PrevColumn, Compression.Address, Previous, State.Keeps, ReadyAfter, Operations,
      Region.OwnReady, Region.Ready, DataIndependent;
    var inst := region.inst;
    ghost var pos := position.(index := i);
    var prevOffset := prevOffset_;
    RotationNeeded(inst, pos, currOffset);
    if currOffset % inst.laneLength == 1 {
      prevOffset := Wrap32(currOffset - 1);
    }
    FillCurrent(region, state, position, i, dataIndependent, currOffset, prevOffset);
    NextOffsets(inst, pos, currOffset, prevOffset);
    if i + 1 < inst.segmentLength {
      NextPrevious(inst, region.memory[..], pos);
    }
    i', currOffset', prevOffset' := i + 1, Wrap32(currOffset + 1), Wrap32(prevOffset + 1);
  }

  lemma NextPrevious(inst: Instance, mem: seq<Block>, pos: Position)
    requires inst.Valid() && pos.In(inst) && |mem| == inst.memoryBlocks && pos.index + 1 < inst.segmentLength
    ensures Off(inst, pos.lane, pos.Column(inst)) < |mem|
    ensures Previous(inst, mem, pos.(index := pos.index + 1)) == mem[Off(inst, pos.lane, pos.Column(inst))]
  {
    hide Off;
    ColumnInSlice(inst, pos);
    OffRange(inst, pos.lane, pos.Column(inst));
  }

  /** Pick the reference block, fold it into the registers and store the new block. */
  method FillCurrent(region: Region<Block>, state: State, position: Position, i: nat, dataIndependent: bool,
                          currOffset: u32, prevOffset: u32)
    requires region.Valid() && region.c == Operations() && position.(index := i).In(region.inst)
    requires region.Ready(position.pass, position.slice) && region.OwnReady(position.(index := i))
    requires dataIndependent == DataIndependent(region.inst, position)
    requires dataIndependent ==> region.pseudoRands[i] == Operations().Address(region.inst, position.(index := i))
    requires currOffset == Off(region.inst, position.lane, position.(index := i).Column(region.inst))
    requires prevOffset == Off(region.inst, position.lane, PrevColumn(region.inst, position.(index := i)))
    requires state.Keeps(Previous(region.inst, region.memory[..], position.(index := i)))
    modifies region.memory, region`trace, state.narrow, state.broad
    ensures currOffset < region.memory.Length
    ensures region.memory[..]
            == old(region.memory[..])[currOffset := NewBlock(Operations(), region.inst, old(region.memory[..]),
                                                             position.(index := i))]
    ensures region.trace == old(region.trace) + [currOffset]
    ensures state.Keeps(region.memory[currOffset])
  {
    hide FinalBlock, IndexAlpha, PrevColumn, Off, RefLane, RefColumn, Compression.Address, State.Keeps, Compress,
      CompressXor, BlockWord, ReadyAfter;
    var inst := region.inst;
    ghost var pos := position.(index := i);
    region.PreviousReady(pos);
    OffRange(inst, pos.lane, PrevColumn(inst, pos));
    OffRange(inst, pos.lane, pos.Column(inst));
    ghost var prev := region.memory[prevOffset];
    var pseudoRand: u64;
    if dataIndependent {
      pseudoRand := region.pseudoRands[i];
    } else {
      var b := region.Load(prevOffset);
      pseudoRand := BlockWord(b, 0);
    }
    var refOffset := region.ReferenceOffset(position, i, pseudoRand);
    var ref := region.Load(refOffset);
    var next := Compressed(region, state, position, i, currOffset, ref, prev);
    region.Store(currOffset, next);
  }

  /** The choice between the two compressions. */
  method Compressed(region: Region<Block>, state: State, position: Position, i: nat, currOffset: u32, ref: Block,
                    ghost prev: Block)
    returns (next: Block)
    requires region.Valid() && position.(index := i).In(region.inst) && region.Ready(position.pass, position.slice)
    requires currOffset == Off(region.inst, position.lane,
                               position.(index := i).Column(region.inst)) < region.memory.Length
    requires state.Keeps(prev)
    modifies state.narrow, state.broad
    ensures state.Keeps(next)
    ensures next == Make(Operations(), position.(index := i), prev, ref, region.memory[currOffset])
  {
    hide Off, State.Keeps, Compress, CompressXor, BlockWord, ReadyAfter;
    OperationsAre(prev, ref, region.memory[currOffset]);
    if position.pass != 0 {
      region.CurrentReady(position.(index := i));
      var was := region.Load(currOffset);
      next := state.FillXor(ref, was, prev);
    } else {
      next := state.Fill(ref, prev);
    }
  }
}
