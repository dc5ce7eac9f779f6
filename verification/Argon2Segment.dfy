/**
 What one slice of an Argon2 pass computes, and why the lanes of a slice can be
 filled in any order or interleaved block by block: the value of every block is
 given by a recurrence that never looks at what another lane writes in the slice.
 */
module Argon2Segment {
  import opened Machine
  import opened Argon2Index

  const ADDRESSES_IN_BLOCK: nat := 128

  /**
   The block operations. `fill` and `fillXor` are the compression of the previous and
   the reference block (the latter folded into the old content), `word` is a 64-bit word
   of a block, and `input` the block that the address generator hashes for a segment and
   a counter value.
   */
  datatype Compression<!B> = Compression(
    fill: (B, B) -> B,
    fillXor: (B, B, B) -> B,
    word: (B, nat) -> u64,
    zero: B,
    input: (Instance, nat, nat, nat, nat) -> B)
  {
    /** The block of addresses for a counter value: two chained compressions of the input block. */
    function AddressBlock(inst: Instance, pos: Position, counter: nat): B {
      fillXor(zero, fillXor(zero, input(inst, pos.pass, pos.lane, pos.slice, counter), zero), zero)
    }

    /** Section 3.4.1.2 of RFC 9106: the address word of a position. */
    function Address(inst: Instance, pos: Position): u64 {
      word(AddressBlock(inst, pos, pos.index / ADDRESSES_IN_BLOCK + 1), pos.index % ADDRESSES_IN_BLOCK)
    }
  }

  function DataIndependent(inst: Instance, pos: Position): bool {
    !(inst.hybrid && (pos.pass != 0 || pos.slice >= SYNC_POINTS / 2))
  }

  function PseudoRand<B>(c: Compression<B>, inst: Instance, pos: Position, prev: B): u64 {
    if DataIndependent(inst, pos) then c.Address(inst, pos) else c.word(prev, 0)
  }

  function RefLane(inst: Instance, pos: Position, rand: u64): nat
    requires inst.lanes > 0
  {
    if pos.pass == 0 && pos.slice == 0 then pos.lane else rand / U32 % inst.lanes
  }

  function RefColumn(inst: Instance, pos: Position, rand: u64): nat
    requires inst.lanes > 0 && inst.laneLength > 0
  {
    IndexAlpha(inst, pos, rand % U32, RefLane(inst, pos, rand) == pos.lane)
  }

  /** Everything the schedule needs to know about the blocks a step reads. */
  lemma ReadsAllowed(inst: Instance, pos: Position, rand: u64)
    requires inst.Valid() && pos.In(inst)
    ensures PrevColumn(inst, pos) < inst.laneLength && pos.Column(inst) < inst.laneLength
    ensures PrevColumn(inst, pos) != pos.Column(inst)
    ensures RefLane(inst, pos, rand) < inst.lanes
    ensures var c := RefColumn(inst, pos, rand);
            && c < inst.laneLength
            && (RefLane(inst, pos, rand) == pos.lane ==> c != PrevColumn(inst, pos) && c != pos.Column(inst))
            && (InSlice(inst, pos.slice, c) ==> RefLane(inst, pos, rand) == pos.lane && c + 1 < pos.Column(inst))
            && (pos.pass == 0 ==> c < pos.Column(inst))
            && (pos.pass == 0 && RefLane(inst, pos, rand) != pos.lane ==> c < inst.SliceBase(pos.slice))
  {
    ModRange(rand / U32, inst.lanes);
    var same := RefLane(inst, pos, rand) == pos.lane;
    IndexAlphaIsRfc(inst, pos, rand % U32, same);
    var w := Window(inst, pos, same);
    WindowSafe(inst, pos, same, w[Selected(|w|, rand % U32)]);
    ColumnInSlice(inst, pos);
  }

  lemma ModRange(x: nat, n: nat)
    requires n > 0
    ensures x % n < n
  {
  }

  lemma ColumnInSlice(inst: Instance, pos: Position)
    requires inst.Sliced() && pos.slice < SYNC_POINTS && pos.index < inst.segmentLength
    ensures InSlice(inst, pos.slice, pos.Column(inst))
    ensures pos.Column(inst) < inst.laneLength
  {
  }

  // ------------------------------------------------------------ one step

  function Make<B>(c: Compression<B>, pos: Position, prev: B, ref: B, old_: B): B {
    if pos.pass != 0 then c.fillXor(prev, ref, old_) else c.fill(prev, ref)
  }

  /** The block the filler stores at `pos`, given the memory at that moment. */
  function NewBlock<B>(c: Compression<B>, inst: Instance, mem: seq<B>, pos: Position): B
    requires inst.Valid() && pos.In(inst) && |mem| == inst.memoryBlocks
  {
    var prevColumn := PrevColumn(inst, pos);
    ReadsAllowed(inst, pos, 0);
    OffRange(inst, pos.lane, prevColumn);
    OffRange(inst, pos.lane, pos.Column(inst));
    var prev := mem[Off(inst, pos.lane, prevColumn)];
    var rand := PseudoRand(c, inst, pos, prev);
    ReadsAllowed(inst, pos, rand);
    OffRange(inst, RefLane(inst, pos, rand), RefColumn(inst, pos, rand));
    Make(c, pos, prev, mem[Off(inst, RefLane(inst, pos, rand), RefColumn(inst, pos, rand))],
         mem[Off(inst, pos.lane, pos.Column(inst))])
  }

  function BlockAt<B>(inst: Instance, mem: seq<B>, lane: nat, col: nat): B
    requires inst.Valid() && lane < inst.lanes && col < inst.laneLength && |mem| == inst.memoryBlocks
  {
    OffRange(inst, lane, col);
    mem[Off(inst, lane, col)]
  }

  /**
   Sections 3.2 and 3.4 of RFC 9106 in numbers. The two 32-bit words J1 (low) and J2 (high) come
   from the previous block for Argon2id after the first half of the first pass, and from the
   address block otherwise; J2 selects the lane, but in the first slice; J1 selects in W.
   */
  lemma NewBlockIsRfc<B>(c: Compression<B>, inst: Instance, mem: seq<B>, pos: Position, col: nat, prevCol: nat,
                         j1: u32, j2: u32)
    requires inst.Valid() && pos.In(inst) && |mem| == inst.memoryBlocks
    requires col == pos.slice * inst.segmentLength + pos.index < inst.laneLength
    requires prevCol == (col + inst.laneLength - 1) % inst.laneLength < inst.laneLength
    requires j1 + U32 * j2 ==
             if inst.hybrid && (pos.pass > 0 || pos.slice >= 2)
             then c.word(BlockAt(inst, mem, pos.lane, prevCol), 0)
             else c.word(c.fillXor(c.zero, c.fillXor(c.zero,
                           c.input(inst, pos.pass, pos.lane, pos.slice, pos.index / 128 + 1), c.zero), c.zero),
                         pos.index % 128)
    ensures var l := if pos.pass == 0 && pos.slice == 0 then pos.lane else j2 % inst.lanes;
            var w := Window(inst, pos, l == pos.lane);
            && l < inst.lanes && 0 <= Selected(|w|, j1) < |w| && w[Selected(|w|, j1)] < inst.laneLength
            && var prev, ref := BlockAt(inst, mem, pos.lane, prevCol), BlockAt(inst, mem, l, w[Selected(|w|, j1)]);
               NewBlock(c, inst, mem, pos) ==
               if pos.pass == 0 then c.fill(prev, ref) else c.fillXor(prev, ref, BlockAt(inst, mem, pos.lane, col))
  {
    hide Window, Selected, IndexAlpha, Off;
    PreviousIsRfc(inst, pos, col, prevCol);
    var rand: u64 := j1 + U32 * j2;
    DivModUnique(j2, j1, U32);
    assert rand == PseudoRand(c, inst, pos, BlockAt(inst, mem, pos.lane, prevCol));
    ReadsAllowed(inst, pos, rand);
    ModRange(j2, inst.lanes);
    var l := if pos.pass == 0 && pos.slice == 0 then pos.lane else j2 % inst.lanes;
    IndexAlphaIsRfc(inst, pos, j1, l == pos.lane);
    OffRange(inst, pos.lane, prevCol);
  }

  lemma PreviousIsRfc(inst: Instance, pos: Position, col: nat, prevCol: nat)
    requires inst.Valid() && pos.In(inst) && col == pos.slice * inst.segmentLength + pos.index
    requires prevCol == (col + inst.laneLength - 1) % inst.laneLength
    ensures pos.Column(inst) == col < inst.laneLength && PrevColumn(inst, pos) == prevCol < inst.laneLength
  {
    SliceBaseIsProduct(inst, pos.slice);
    ColumnInSlice(inst, pos);
    ModOnce(col + inst.laneLength - 1, inst.laneLength);
  }

  // ------------------------------------------------------ the recurrence

  /** The reference block is one this lane has already built in the running slice. */
  predicate OwnEarlier(inst: Instance, pos: Position, refLane: nat, refColumn: nat) {
    && refLane == pos.lane
    && inst.SliceBase(pos.slice) + StartIndex(pos.pass, pos.slice) <= refColumn < pos.Column(inst)
  }

  /**
   Sections 3.2 and 3.4 of RFC 9106 as a recurrence: the value block `pos` gets in this
   pass, from the memory `m0` at the start of the slice and earlier blocks of the same
   segment only.
   */
  function FinalBlock<B>(c: Compression<B>, inst: Instance, m0: seq<B>, pos: Position): B
    requires inst.Valid() && pos.In(inst) && |m0| == inst.memoryBlocks
    decreases pos.index
  {
    ReadsAllowed(inst, pos, 0);
    OffRange(inst, pos.lane, PrevColumn(inst, pos));
    OffRange(inst, pos.lane, pos.Column(inst));
    var prev := if pos.index > StartIndex(pos.pass, pos.slice)
                then FinalBlock(c, inst, m0, pos.(index := pos.index - 1))
                else m0[Off(inst, pos.lane, PrevColumn(inst, pos))];
    var rand := PseudoRand(c, inst, pos, prev);
    var refLane, refColumn := RefLane(inst, pos, rand), RefColumn(inst, pos, rand);
    ReadsAllowed(inst, pos, rand);
    OffRange(inst, refLane, refColumn);
    var ref := if OwnEarlier(inst, pos, refLane, refColumn)
               then FinalBlock(c, inst, m0, pos.(index := refColumn - inst.SliceBase(pos.slice)))
               else m0[Off(inst, refLane, refColumn)];
    Make(c, pos, prev, ref, m0[Off(inst, pos.lane, pos.Column(inst))])
  }

  /** Content of one block when the lane it belongs to has built its segment up to index `n`. */
  function Partial<B>(c: Compression<B>, inst: Instance, m0: seq<B>, pass: nat, slice: nat,
                      n: nat, lane: nat, col: nat): B
    requires inst.Valid() && slice < SYNC_POINTS && lane < inst.lanes && col < inst.laneLength
    requires n <= inst.segmentLength && |m0| == inst.memoryBlocks
  {
    OffRange(inst, lane, col);
    var base := inst.SliceBase(slice);
    if base + StartIndex(pass, slice) <= col < base + n
    then FinalBlock(c, inst, m0, Position(pass, lane, slice, col - base))
    else m0[Off(inst, lane, col)]
  }

  predicate IsProgress(inst: Instance, done: seq<nat>) {
    |done| == inst.lanes && forall l :: 0 <= l < |done| ==> done[l] <= inst.segmentLength
  }

  /** The memory when lane `l` has built its segment up to index `done[l]`, for every `l`. */
  ghost predicate Progressed<B>(c: Compression<B>, inst: Instance, m0: seq<B>, pass: nat, slice: nat,
                                done: seq<nat>, mem: seq<B>)
    requires inst.Valid() && slice < SYNC_POINTS && |m0| == inst.memoryBlocks
    requires IsProgress(inst, done)
  {
    && |mem| == inst.memoryBlocks
    && forall l, col :: 0 <= l < inst.lanes && 0 <= col < inst.laneLength ==>
         (OffRange(inst, l, col);
          mem[Off(inst, l, col)] == Partial(c, inst, m0, pass, slice, done[l], l, col))
  }

  /** Progress determines the memory. */
  lemma ProgressedUnique<B>(c: Compression<B>, inst: Instance, m0: seq<B>, pass: nat, slice: nat,
                            done: seq<nat>, mem: seq<B>, mem': seq<B>)
    requires inst.Valid() && slice < SYNC_POINTS && |m0| == inst.memoryBlocks && IsProgress(inst, done)
    requires Progressed(c, inst, m0, pass, slice, done, mem)
    requires Progressed(c, inst, m0, pass, slice, done, mem')
    ensures mem == mem'
  {
    forall x | 0 <= x < inst.memoryBlocks ensures mem[x] == mem'[x] {
      OffOnto(inst, x);
      var (l, col) := LaneOf(inst, x);
      assert mem[Off(inst, l, col)] == Partial(c, inst, m0, pass, slice, done[l], l, col);
    }
  }

  lemma ProgressedStart<B>(c: Compression<B>, inst: Instance, m0: seq<B>, pass: nat, slice: nat, done: seq<nat>)
    requires inst.Valid() && slice < SYNC_POINTS && |m0| == inst.memoryBlocks && IsProgress(inst, done)
    requires forall l :: 0 <= l < |done| ==> done[l] == StartIndex(pass, slice)
    ensures Progressed(c, inst, m0, pass, slice, done, m0)
  {
    forall l, col | 0 <= l < inst.lanes && 0 <= col < inst.laneLength
      ensures (OffRange(inst, l, col);
               m0[Off(inst, l, col)] == Partial(c, inst, m0, pass, slice, done[l], l, col))
    {
      OffRange(inst, l, col);
    }
  }

  /** One read of the running memory, whatever the other lanes have done meanwhile. */
  lemma ReadIsFinal<B>(c: Compression<B>, inst: Instance, m0: seq<B>, pass: nat, slice: nat,
                       done: seq<nat>, mem: seq<B>, l: nat, col: nat)
    requires inst.Valid() && slice < SYNC_POINTS && |m0| == inst.memoryBlocks && IsProgress(inst, done)
    requires Progressed(c, inst, m0, pass, slice, done, mem)
    requires l < inst.lanes && col < inst.laneLength
    ensures Off(inst, l, col) < |mem|
    ensures mem[Off(inst, l, col)] == Partial(c, inst, m0, pass, slice, done[l], l, col)
  {
    OffRange(inst, l, col);
  }

  /** The previous block, as the running memory shows it and as the recurrence names it. */
  function FinalPrev<B>(c: Compression<B>, inst: Instance, m0: seq<B>, pos: Position): B
    requires inst.Valid() && pos.In(inst) && |m0| == inst.memoryBlocks
  {
    ReadsAllowed(inst, pos, 0);
    OffRange(inst, pos.lane, PrevColumn(inst, pos));
    if pos.index > StartIndex(pos.pass, pos.slice)
    then FinalBlock(c, inst, m0, pos.(index := pos.index - 1))
    else m0[Off(inst, pos.lane, PrevColumn(inst, pos))]
  }

  function FinalRef<B>(c: Compression<B>, inst: Instance, m0: seq<B>, pos: Position, refLane: nat, refColumn: nat): B
    requires inst.Valid() && pos.In(inst) && |m0| == inst.memoryBlocks
    requires refLane < inst.lanes && refColumn < inst.laneLength
  {
    OffRange(inst, refLane, refColumn);
    if OwnEarlier(inst, pos, refLane, refColumn)
    then FinalBlock(c, inst, m0, pos.(index := refColumn - inst.SliceBase(pos.slice)))
    else m0[Off(inst, refLane, refColumn)]
  }

  lemma FinalBlockUnfolded<B>(c: Compression<B>, inst: Instance, m0: seq<B>, pos: Position)
    requires inst.Valid() && pos.In(inst) && |m0| == inst.memoryBlocks
    ensures Off(inst, pos.lane, pos.Column(inst)) < |m0|
    ensures var prev := FinalPrev(c, inst, m0, pos);
            var rand := PseudoRand(c, inst, pos, prev);
            && RefLane(inst, pos, rand) < inst.lanes && RefColumn(inst, pos, rand) < inst.laneLength
            && FinalBlock(c, inst, m0, pos)
               == Make(c, pos, prev, FinalRef(c, inst, m0, pos, RefLane(inst, pos, rand), RefColumn(inst, pos, rand)),
                       m0[Off(inst, pos.lane, pos.Column(inst))])
  {
    hide IndexAlpha, DataIndependent, OwnEarlier, Make, Off, RefLane, RefColumn, PseudoRand;
    ReadsAllowed(inst, pos, 0);
    ReadsAllowed(inst, pos, PseudoRand(c, inst, pos, FinalPrev(c, inst, m0, pos)));
    OffRange(inst, pos.lane, pos.Column(inst));
  }

  lemma PrevIsFinal<B>(c: Compression<B>, inst: Instance, m0: seq<B>, done: seq<nat>, mem: seq<B>, pos: Position)
    requires inst.Valid() && pos.In(inst) && |m0| == inst.memoryBlocks && IsProgress(inst, done)
    requires Progressed(c, inst, m0, pos.pass, pos.slice, done, mem)
    requires done[pos.lane] == pos.index
    ensures PrevColumn(inst, pos) < inst.laneLength && Off(inst, pos.lane, PrevColumn(inst, pos)) < |mem|
    ensures mem[Off(inst, pos.lane, PrevColumn(inst, pos))] == FinalPrev(c, inst, m0, pos)
  {
    hide FinalBlock;
    ReadsAllowed(inst, pos, 0);
    ReadIsFinal(c, inst, m0, pos.pass, pos.slice, done, mem, pos.lane, PrevColumn(inst, pos));
    PrevInSegment(inst, pos);
  }

  lemma RefIsFinal<B>(c: Compression<B>, inst: Instance, m0: seq<B>, done: seq<nat>, mem: seq<B>,
                      pos: Position, refLane: nat, refColumn: nat)
    requires inst.Valid() && pos.In(inst) && |m0| == inst.memoryBlocks && IsProgress(inst, done)
    requires Progressed(c, inst, m0, pos.pass, pos.slice, done, mem)
    requires done[pos.lane] == pos.index
    requires refLane < inst.lanes && refColumn < inst.laneLength
    requires InSlice(inst, pos.slice, refColumn) ==> refLane == pos.lane && refColumn < pos.Column(inst)
    ensures Off(inst, refLane, refColumn) < |mem|
    ensures mem[Off(inst, refLane, refColumn)] == FinalRef(c, inst, m0, pos, refLane, refColumn)
  {
    hide FinalBlock;
    ReadIsFinal(c, inst, m0, pos.pass, pos.slice, done, mem, refLane, refColumn);
  }

  /** A lane's next block is the recurrence's, no matter how far the other lanes are. */
  lemma NewBlockIsFinal<B>(c: Compression<B>, inst: Instance, m0: seq<B>, done: seq<nat>, mem: seq<B>, pos: Position)
    requires inst.Valid() && pos.In(inst) && |m0| == inst.memoryBlocks && IsProgress(inst, done)
    requires Progressed(c, inst, m0, pos.pass, pos.slice, done, mem)
    requires done[pos.lane] == pos.index
    ensures NewBlock(c, inst, mem, pos) == FinalBlock(c, inst, m0, pos)
  {
    hide FinalBlock;
    PrevIsFinal(c, inst, m0, done, mem, pos);
    var rand := PseudoRand(c, inst, pos, FinalPrev(c, inst, m0, pos));
    ReadsAllowed(inst, pos, rand);
    RefIsFinal(c, inst, m0, done, mem, pos, RefLane(inst, pos, rand), RefColumn(inst, pos, rand));
    ColumnInSlice(inst, pos);
    ReadIsFinal(c, inst, m0, pos.pass, pos.slice, done, mem, pos.lane, pos.Column(inst));
    FinalBlockUnfolded(c, inst, m0, pos);
  }

  lemma PrevInSegment(inst: Instance, pos: Position)
    requires inst.Valid() && pos.In(inst)
    ensures var base := inst.SliceBase(pos.slice);
            var start := StartIndex(pos.pass, pos.slice);
            var prev := PrevColumn(inst, pos);
            && (pos.index > start ==> prev == base + pos.index - 1)
            && (pos.index == start ==> !(base + start <= prev < base + pos.index))
  {
    ColumnInSlice(inst, pos);
  }

  /** Building one more block of one lane. */
  lemma ProgressedStep<B>(c: Compression<B>, inst: Instance, m0: seq<B>, done: seq<nat>, mem: seq<B>, pos: Position)
    requires inst.Valid() && pos.In(inst) && |m0| == inst.memoryBlocks && IsProgress(inst, done)
    requires Progressed(c, inst, m0, pos.pass, pos.slice, done, mem)
    requires done[pos.lane] == pos.index
    ensures Off(inst, pos.lane, pos.Column(inst)) < |mem|
    ensures var mem' := mem[Off(inst, pos.lane, pos.Column(inst)) := NewBlock(c, inst, mem, pos)];
            Progressed(c, inst, m0, pos.pass, pos.slice, done[pos.lane := pos.index + 1], mem')
  {
    hide NewBlock, FinalBlock, Partial, Off;
    var lane, column := pos.lane, pos.Column(inst);
    ColumnInSlice(inst, pos);
    OffRange(inst, lane, column);
    NewBlockIsFinal(c, inst, m0, done, mem, pos);
    var mem' := mem[Off(inst, lane, column) := NewBlock(c, inst, mem, pos)];
    var done' := done[lane := pos.index + 1];
    forall l, col | 0 <= l < inst.lanes && 0 <= col < inst.laneLength
      ensures (OffRange(inst, l, col);
               mem'[Off(inst, l, col)] == Partial(c, inst, m0, pos.pass, pos.slice, done'[l], l, col))
    {
      OffRange(inst, l, col);
      assert mem[Off(inst, l, col)] == Partial(c, inst, m0, pos.pass, pos.slice, done[l], l, col);
      PartialStep(c, inst, m0, pos, l, col);
      if Off(inst, l, col) == Off(inst, lane, column) {
        OffInjective(inst, l, col, lane, column);
      }
    }
  }

  /** One more block of progress changes the content of that block alone. */
  lemma PartialStep<B>(c: Compression<B>, inst: Instance, m0: seq<B>, pos: Position, l: nat, col: nat)
    requires inst.Valid() && pos.In(inst) && |m0| == inst.memoryBlocks
    requires l < inst.lanes && col < inst.laneLength
    ensures Partial(c, inst, m0, pos.pass, pos.slice, pos.index + 1, pos.lane, col)
            == if col == pos.Column(inst) then FinalBlock(c, inst, m0, pos)
               else Partial(c, inst, m0, pos.pass, pos.slice, pos.index, pos.lane, col)
  {
    hide FinalBlock;
  }

  // --------------------------------------------------- any interleaving

  /** `schedule[k]` is the lane that builds its next block at step `k`. */
  predicate Fits(inst: Instance, done: seq<nat>, schedule: seq<nat>)
    requires IsProgress(inst, done)
    decreases |schedule|
  {
    schedule == [] ||
    (&& schedule[0] < inst.lanes
     && done[schedule[0]] < inst.segmentLength
     && Fits(inst, done[schedule[0] := done[schedule[0]] + 1], schedule[1..]))
  }

  function After(inst: Instance, done: seq<nat>, schedule: seq<nat>): (r: seq<nat>)
    requires IsProgress(inst, done) && Fits(inst, done, schedule)
    ensures IsProgress(inst, r)
    decreases |schedule|
  {
    if schedule == [] then done
    else After(inst, done[schedule[0] := done[schedule[0]] + 1], schedule[1..])
  }

  /** Lanes running concurrently, one block at a time, in the order the schedule gives. */
  function Interleave<B>(c: Compression<B>, inst: Instance, pass: nat, slice: nat,
                         done: seq<nat>, mem: seq<B>, schedule: seq<nat>): seq<B>
    requires inst.Valid() && slice < SYNC_POINTS && IsProgress(inst, done) && Fits(inst, done, schedule)
    requires |mem| == inst.memoryBlocks
    requires forall l :: 0 <= l < |done| ==> StartIndex(pass, slice) <= done[l]
    decreases |schedule|
  {
    if schedule == [] then mem
    else
      var lane := schedule[0];
      var pos := Position(pass, lane, slice, done[lane]);
      ReadsAllowed(inst, pos, 0);
      OffRange(inst, lane, pos.Column(inst));
      Interleave(c, inst, pass, slice, done[lane := done[lane] + 1],
                 mem[Off(inst, lane, pos.Column(inst)) := NewBlock(c, inst, mem, pos)], schedule[1..])
  }

  lemma {:induction false} InterleaveProgress<B>(
      c: Compression<B>, inst: Instance, pass: nat, slice: nat, m0: seq<B>,
      done: seq<nat>, mem: seq<B>, schedule: seq<nat>)
    requires inst.Valid() && slice < SYNC_POINTS && IsProgress(inst, done) && Fits(inst, done, schedule)
    requires |m0| == |mem| == inst.memoryBlocks
    requires forall l :: 0 <= l < |done| ==> StartIndex(pass, slice) <= done[l]
    requires Progressed(c, inst, m0, pass, slice, done, mem)
    ensures Progressed(c, inst, m0, pass, slice, After(inst, done, schedule),
                       Interleave(c, inst, pass, slice, done, mem, schedule))
    decreases |schedule|
  {
    hide NewBlock, FinalBlock, Partial;
    if schedule == [] {
    } else {
      var lane := schedule[0];
      var pos := Position(pass, lane, slice, done[lane]);
      ProgressedStep(c, inst, m0, done, mem, pos);
      InterleaveProgress(c, inst, pass, slice, m0, done[lane := done[lane] + 1],
                         mem[Off(inst, lane, pos.Column(inst)) := NewBlock(c, inst, mem, pos)], schedule[1..]);
    }
  }

  function Fresh(inst: Instance, pass: nat, slice: nat): (r: seq<nat>)
    requires inst.Sliced()
    ensures IsProgress(inst, r)
    ensures forall l :: 0 <= l < |r| ==> r[l] == StartIndex(pass, slice)
  {
    seq(inst.lanes, _ => StartIndex(pass, slice))
  }

  function Complete(inst: Instance): (r: seq<nat>)
    ensures IsProgress(inst, r)
    ensures forall l :: 0 <= l < |r| ==> r[l] == inst.segmentLength
  {
    seq(inst.lanes, _ => inst.segmentLength)
  }

  /** The memory after a slice, as the recurrence defines it. */
  function SliceResult<B>(c: Compression<B>, inst: Instance, m0: seq<B>, pass: nat, slice: nat): (r: seq<B>)
    requires inst.Valid() && slice < SYNC_POINTS && |m0| == inst.memoryBlocks
    ensures |r| == |m0|
  {
    seq(|m0|, x requires 0 <= x < |m0| =>
      OffOnto(inst, x);
      Partial(c, inst, m0, pass, slice, inst.segmentLength, LaneOf(inst, x).0, LaneOf(inst, x).1))
  }

  lemma SliceResultProgressed<B>(c: Compression<B>, inst: Instance, m0: seq<B>, pass: nat, slice: nat)
    requires inst.Valid() && slice < SYNC_POINTS && |m0| == inst.memoryBlocks
    ensures Progressed(c, inst, m0, pass, slice, Complete(inst), SliceResult(c, inst, m0, pass, slice))
  {
    forall l, col | 0 <= l < inst.lanes && 0 <= col < inst.laneLength
      ensures (OffRange(inst, l, col);
               SliceResult(c, inst, m0, pass, slice)[Off(inst, l, col)]
               == Partial(c, inst, m0, pass, slice, Complete(inst)[l], l, col))
    {
      OffRange(inst, l, col);
      var (l', col') := LaneOf(inst, Off(inst, l, col));
      OffInjective(inst, l, col, l', col');
    }
  }

  /**
   Section 3.4 of RFC 9106, synchronisation: however the lanes of a slice are
   interleaved, block by block, once all of them are complete the memory is the one the
   recurrence defines. In particular any two complete schedules agree.
   */
  lemma InterleavingIrrelevant<B>(c: Compression<B>, inst: Instance, pass: nat, slice: nat,
                                  mem: seq<B>, schedule: seq<nat>)
    requires inst.Valid() && slice < SYNC_POINTS && |mem| == inst.memoryBlocks
    requires Fits(inst, Fresh(inst, pass, slice), schedule)
    requires After(inst, Fresh(inst, pass, slice), schedule) == Complete(inst)
    ensures Interleave(c, inst, pass, slice, Fresh(inst, pass, slice), mem, schedule)
            == SliceResult(c, inst, mem, pass, slice)
  {
    var done := Fresh(inst, pass, slice);
    ProgressedStart(c, inst, mem, pass, slice, done);
    InterleaveProgress(c, inst, pass, slice, mem, done, mem, schedule);
    SliceResultProgressed(c, inst, mem, pass, slice);
    ProgressedUnique(c, inst, mem, pass, slice, Complete(inst),
                     Interleave(c, inst, pass, slice, done, mem, schedule),
                     SliceResult(c, inst, mem, pass, slice));
  }

  // ---------------------------------------------- segments one after another

  /** Two memories that agree outside what the other lanes write in the slice. */
  ghost predicate AgreeForLane<B>(inst: Instance, slice: nat, lane: nat, m0: seq<B>, m1: seq<B>)
    requires inst.Valid() && |m0| == |m1| == inst.memoryBlocks
  {
    forall l, col :: 0 <= l < inst.lanes && 0 <= col < inst.laneLength && (l == lane || !InSlice(inst, slice, col))
      ==> (OffRange(inst, l, col); m0[Off(inst, l, col)] == m1[Off(inst, l, col)])
  }

  /** No segment depends on a block another lane writes in the same slice. */
  lemma {:induction false} SegmentIndependent<B>(c: Compression<B>, inst: Instance, m0: seq<B>, m1: seq<B>,
                                                 pos: Position)
    requires inst.Valid() && pos.In(inst) && |m0| == |m1| == inst.memoryBlocks
    requires AgreeForLane(inst, pos.slice, pos.lane, m0, m1)
    ensures FinalBlock(c, inst, m0, pos) == FinalBlock(c, inst, m1, pos)
    decreases pos.index, 1
  {
    hide FinalBlock;
    ReadsAllowed(inst, pos, 0);
    OffRange(inst, pos.lane, PrevColumn(inst, pos));
    OffRange(inst, pos.lane, pos.Column(inst));
    if pos.index > StartIndex(pos.pass, pos.slice) {
      SegmentIndependent(c, inst, m0, m1, pos.(index := pos.index - 1));
    }
    var prev := FinalPrev(c, inst, m0, pos);
    assert prev == FinalPrev(c, inst, m1, pos);
    var rand := PseudoRand(c, inst, pos, prev);
    ReadsAllowed(inst, pos, rand);
    RefIndependent(c, inst, m0, m1, pos, RefLane(inst, pos, rand), RefColumn(inst, pos, rand));
    FinalBlockUnfolded(c, inst, m0, pos);
    FinalBlockUnfolded(c, inst, m1, pos);
  }

  lemma {:induction false} RefIndependent<B>(c: Compression<B>, inst: Instance, m0: seq<B>, m1: seq<B>, pos: Position,
                                            refLane: nat, refColumn: nat)
    requires inst.Valid() && pos.In(inst) && |m0| == |m1| == inst.memoryBlocks
    requires AgreeForLane(inst, pos.slice, pos.lane, m0, m1)
    requires refLane < inst.lanes && refColumn < inst.laneLength
    requires InSlice(inst, pos.slice, refColumn) ==> refLane == pos.lane && refColumn < pos.Column(inst)
    ensures FinalRef(c, inst, m0, pos, refLane, refColumn) == FinalRef(c, inst, m1, pos, refLane, refColumn)
    decreases pos.index, 0
  {
    hide FinalBlock;
    OffRange(inst, refLane, refColumn);
    if OwnEarlier(inst, pos, refLane, refColumn) {
      SegmentIndependent(c, inst, m0, m1, pos.(index := refColumn - inst.SliceBase(pos.slice)));
    }
  }

  /** Memory after one lane's segment has been filled on its own. */
  ghost predicate SegmentFilled<B>(c: Compression<B>, inst: Instance, pass: nat, slice: nat, lane: nat,
                                   m0: seq<B>, mem: seq<B>)
    requires inst.Valid() && slice < SYNC_POINTS && lane < inst.lanes && |m0| == inst.memoryBlocks
  {
    Progressed(c, inst, m0, pass, slice, Fresh(inst, pass, slice)[lane := inst.segmentLength], mem)
  }

  /** Filling a segment after some of the other lanes: the slice is that much further. */
  lemma SegmentAfterOthers<B>(c: Compression<B>, inst: Instance, m0: seq<B>, pass: nat, slice: nat, lane: nat,
                              done: seq<nat>, m1: seq<B>, m2: seq<B>)
    requires inst.Valid() && slice < SYNC_POINTS && lane < inst.lanes && |m0| == inst.memoryBlocks
    requires IsProgress(inst, done) && done[lane] == StartIndex(pass, slice)
    requires Progressed(c, inst, m0, pass, slice, done, m1)
    requires SegmentFilled(c, inst, pass, slice, lane, m1, m2)
    ensures Progressed(c, inst, m0, pass, slice, done[lane := inst.segmentLength], m2)
  {
    var done' := done[lane := inst.segmentLength];
    forall l, col | 0 <= l < inst.lanes && 0 <= col < inst.laneLength
      ensures (OffRange(inst, l, col);
               m2[Off(inst, l, col)] == Partial(c, inst, m0, pass, slice, done'[l], l, col))
    {
      ReadIsFinal(c, inst, m1, pass, slice, Fresh(inst, pass, slice)[lane := inst.segmentLength], m2, l, col);
      ReadIsFinal(c, inst, m0, pass, slice, done, m1, l, col);
      if l == lane {
        AgreeAfterOthers(c, inst, m0, pass, slice, lane, done, m1);
        SamePartial(c, inst, m0, m1, pass, slice, lane, col);
      }
    }
  }

  lemma SamePartial<B>(c: Compression<B>, inst: Instance, m0: seq<B>, m1: seq<B>, pass: nat, slice: nat, lane: nat,
                       col: nat)
    requires inst.Valid() && slice < SYNC_POINTS && lane < inst.lanes && col < inst.laneLength
    requires |m0| == |m1| == inst.memoryBlocks && AgreeForLane(inst, slice, lane, m0, m1)
    ensures Partial(c, inst, m0, pass, slice, inst.segmentLength, lane, col)
            == Partial(c, inst, m1, pass, slice, inst.segmentLength, lane, col)
  {
    hide FinalBlock;
    OffRange(inst, lane, col);
    var base := inst.SliceBase(slice);
    if base + StartIndex(pass, slice) <= col < base + inst.segmentLength {
      SegmentIndependent(c, inst, m0, m1, Position(pass, lane, slice, col - base));
    }
  }

  lemma AgreeAfterOthers<B>(c: Compression<B>, inst: Instance, m0: seq<B>, pass: nat, slice: nat, lane: nat,
                            done: seq<nat>, m1: seq<B>)
    requires inst.Valid() && slice < SYNC_POINTS && lane < inst.lanes && |m0| == inst.memoryBlocks
    requires IsProgress(inst, done) && done[lane] == StartIndex(pass, slice)
    requires Progressed(c, inst, m0, pass, slice, done, m1)
    ensures AgreeForLane(inst, slice, lane, m0, m1)
  {
    forall l, col | 0 <= l < inst.lanes && 0 <= col < inst.laneLength && (l == lane || !InSlice(inst, slice, col))
      ensures (OffRange(inst, l, col); m0[Off(inst, l, col)] == m1[Off(inst, l, col)])
    {
      OffRange(inst, l, col);
      assert m1[Off(inst, l, col)] == Partial(c, inst, m0, pass, slice, done[l], l, col);
    }
  }

  /** Whichever filler built the segment, the memory is the same. */
  lemma FillersAgree<B>(c: Compression<B>, inst: Instance, pass: nat, slice: nat, lane: nat,
                        m0: seq<B>, mem: seq<B>, mem': seq<B>)
    requires inst.Valid() && slice < SYNC_POINTS && lane < inst.lanes && |m0| == inst.memoryBlocks
    requires SegmentFilled(c, inst, pass, slice, lane, m0, mem)
    requires SegmentFilled(c, inst, pass, slice, lane, m0, mem')
    ensures mem == mem'
  {
    hide Progressed;
    ProgressedUnique(c, inst, m0, pass, slice, Fresh(inst, pass, slice)[lane := inst.segmentLength], mem, mem');
  }
}
