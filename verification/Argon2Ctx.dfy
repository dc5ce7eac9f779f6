/**
 The parameter check and sizing of Argon2, and the whole computation up to the last
 pass: sizes derived from checked parameters are exact in 32 bits, and the final
 memory depends on the seeded blocks alone.
 */
module Argon2Ctx {
  import opened Machine
  import opened Argon2Index
  import opened Argon2Segment
  import opened Argon2Fill

  const MIN_OUTLEN: nat := 16
  const MIN_SALT_LENGTH: nat := 8
  const MIN_MEMORY: nat := 2 * SYNC_POINTS
  const MAX_LANES: nat := 0xFFFFFF
  const MAX_THREADS: nat := 0xFFFFFF
  const MIN_TIME: nat := 1

  const ARGON2_I: int := 1
  const ARGON2_ID: int := 2

  datatype Code =
    | Ok
    | OutputPtrNull | OutputTooShort
    | PwdPtrMismatch | SaltPtrMismatch | SaltTooShort
    | SecretPtrMismatch | AdPtrMismatch
    | MemoryTooLittle | TimeTooSmall
    | LanesTooFew | LanesTooMany | ThreadsTooFew | ThreadsTooMany
    | IncorrectType | MemoryAllocationError | EncodingFail | DecodingFail

  /** A length and whether its pointer is null. */
  datatype Buffer = Buffer(isNull: bool, len: u32)

  /** The parameters of one computation (`argon2_context`), byte contents aside. */
  datatype Context = Context(
    out: Buffer, pwd: Buffer, salt: Buffer, secret: Buffer, ad: Buffer,
    tCost: u32, mCost: u32, lanes: u32, threads: u32)

  /**
   `argon2_validate_inputs` on a non-null context, on a platform with 64-bit pointers.
   Bounds of 0 and of 2^32 - 1 on 32-bit fields can never be violated and are not listed.
   */
  function ValidateInputs(x: Context): Code {
    if x.out.isNull then OutputPtrNull
    else if MIN_OUTLEN > x.out.len then OutputTooShort
    else if x.pwd.isNull && x.pwd.len != 0 then PwdPtrMismatch
    else if x.salt.isNull && x.salt.len != 0 then SaltPtrMismatch
    else if MIN_SALT_LENGTH > x.salt.len then SaltTooShort
    else if x.secret.isNull && x.secret.len != 0 then SecretPtrMismatch
    else if x.ad.isNull && x.ad.len != 0 then AdPtrMismatch
    else if MIN_MEMORY > x.mCost then MemoryTooLittle
    else if x.mCost < Wrap32(8 * x.lanes) then MemoryTooLittle
    else if MIN_TIME > x.tCost then TimeTooSmall
    else if 1 > x.lanes then LanesTooFew
    else if MAX_LANES < x.lanes then LanesTooMany
    else if 1 > x.threads then ThreadsTooFew
    else if MAX_THREADS < x.threads then ThreadsTooMany
    else Ok
  }

  /** The parameters that pass, in numbers (section 3.1 of RFC 9106, with the bounds of the code). */
  lemma ValidExactly(x: Context)
    ensures ValidateInputs(x) == Ok <==>
            && !x.out.isNull && x.out.len >= 16 && x.salt.len >= 8 && !x.salt.isNull
            && (x.pwd.isNull ==> x.pwd.len == 0) && (x.secret.isNull ==> x.secret.len == 0)
            && (x.ad.isNull ==> x.ad.len == 0)
            && x.mCost >= 8 && x.mCost >= 8 * x.lanes && x.tCost >= 1
            && 1 <= x.lanes < 0x100_0000 && 1 <= x.threads < 0x100_0000
  {
  }

  /** The sizing steps of `argon2_ctx`, in 32-bit arithmetic. */
  function Size(x: Context, typ: int): Instance
    requires Wrap32(x.lanes * SYNC_POINTS) > 0
  {
    var least := Wrap32(2 * SYNC_POINTS * x.lanes);
    var aligned: u32 := if x.mCost < least then least else x.mCost;
    var step := Wrap32(x.lanes * SYNC_POINTS);
    Sized(x, typ, step, Quotient(aligned, step))
  }

  function Sized(x: Context, typ: int, step: u32, segmentLength: nat): Instance {
    Instance(x.tCost, Wrap32(segmentLength * step), segmentLength,
             Wrap32(segmentLength * SYNC_POINTS), x.lanes, typ == ARGON2_ID)
  }

  /**
   Section 3.2 of RFC 9106, step 2: for checked parameters the region has
   4 p floor(m / 4p) blocks, every lane four segments of at least two blocks, and no
   32-bit operation of the sizing wraps.
   */
  lemma SizeIsValid(x: Context, typ: int)
    requires ValidateInputs(x) == Ok
    ensures Wrap32(x.lanes * SYNC_POINTS) == 4 * x.lanes > 0
    ensures Size(x, typ).Valid()
    ensures Size(x, typ).memoryBlocks == 4 * x.lanes * (x.mCost / (4 * x.lanes))
    ensures x.mCost - 4 * x.lanes < Size(x, typ).memoryBlocks <= x.mCost
    ensures Size(x, typ).lanes == x.lanes && Size(x, typ).passes == x.tCost >= 1
  {
    hide Sized;
    assert Wrap32(x.lanes * SYNC_POINTS) == 4 * x.lanes && Wrap32(2 * SYNC_POINTS * x.lanes) == 8 * x.lanes;
    assert Size(x, typ) == Sized(x, typ, 4 * x.lanes, Quotient(x.mCost, 4 * x.lanes));
    SizedExactly(x, typ, Quotient(x.mCost, 4 * x.lanes));
  }

  /** Section 3.4.1 of RFC 9106: Argon2i addresses independently of the data throughout, Argon2id in the first half of
      the first pass only. */
  lemma AddressingByType(x: Context, typ: int, pos: Position)
    requires ValidateInputs(x) == Ok && (typ == 1 || typ == 2)
    ensures DataIndependent(Size(x, typ), pos) <==> typ == 1 || (pos.pass == 0 && pos.slice < 2)
  {
    SizeIsValid(x, typ);
  }

  lemma Exact32(x: nat)
    requires x < U32
    ensures Wrap32(x) == x
  {
  }

  lemma Slices(m: nat, p: nat, q: nat)
    requires p >= 4 && 2 * p <= m && q == Quotient(m, p)
    ensures q >= 2 && 4 * q <= q * p <= m < q * p + p
  {
    Floor(m, p);
    if q <= 1 {
      MulMono(q, 1, p);
      assert false;
    }
    MulMono(4, p, q);
  }

  lemma SizedExactly(x: Context, typ: int, q: nat)
    requires 1 <= x.lanes <= MAX_LANES && 8 * x.lanes <= x.mCost && x.tCost >= 1
    requires q == Quotient(x.mCost, 4 * x.lanes)
    ensures var inst := Sized(x, typ, 4 * x.lanes, q);
            && inst.Valid()
            && inst.memoryBlocks == 4 * x.lanes * q
            && x.mCost - 4 * x.lanes < inst.memoryBlocks <= x.mCost
            && inst.lanes == x.lanes && inst.passes == x.tCost
  {
    hide Wrap32, Quotient, Instance.LaneBase;
    var p := 4 * x.lanes;
    Slices(x.mCost, p, q);
    Exact32(q * p);
    Exact32(q * SYNC_POINTS);
    var inst := Sized(x, typ, p, q);
    LaneBaseIsProduct(inst, inst.lanes);
    assert x.lanes * (4 * q) == q * p;
  }

  /**
   `argon2_ctx`. On success the output is the hash of the last column after all passes of
   the recurrence, from any memory that holds the two seed blocks of each lane: whatever
   else the allocator handed out has no effect. Seeding and hashing are parameters.
   */
  method Ctx<B(0)>(c: Compression<B>, x: Context, typ: int, hasMemory: bool, seed: (nat, nat) -> B,
                   xor: (B, B) -> B, hash: (B, nat) -> seq<byte>)
    returns (code: Code, out: seq<byte>)
    ensures code == if ValidateInputs(x) != Ok then ValidateInputs(x)
                    else if typ != ARGON2_ID && typ != ARGON2_I then IncorrectType
                    else if !hasMemory then MemoryAllocationError else Ok
    ensures code == Ok ==> Wrap32(x.lanes * SYNC_POINTS) > 0 && Size(x, typ).Valid() && Size(x, typ).lanes > 0
    ensures code == Ok ==>
              forall m0 :: |m0| == Size(x, typ).memoryBlocks && Seeded(Size(x, typ), seed, m0) ==>
                out == Digest(c, Size(x, typ), m0, x, xor, hash)
  {
    hide FinalBlock, RunResult, Instance.LaneBase, Off, LastColumn, Seeded, ValidateInputs, ReadyAfter;
    out := [];
    code := ValidateInputs(x);
    if code != Ok {
      return;
    }
    if typ != ARGON2_ID && typ != ARGON2_I {
      return IncorrectType, [];
    }
    SizeIsValid(x, typ);
    var inst := Size(x, typ);
    if !hasMemory {
      return MemoryAllocationError, [];
    }
    var region := new Region<B>(c, inst);
    region.FillFirstBlocks(seed);
    ghost var m1 := region.memory[..];
    FillPasses(region);
    var blockhash := AddLastBlocks(region, xor, inst.passes);
    out := hash(blockhash, x.out.len);
    AnySeededMemory(c, inst, seed, m1, x, xor, hash);
  }

  /** The output of the computation that starts from memory `m0`. */
  function Digest<B>(c: Compression<B>, inst: Instance, m0: seq<B>, x: Context, xor: (B, B) -> B,
                     hash: (B, nat) -> seq<byte>):
      seq<byte>
    requires inst.Valid() && |m0| == inst.memoryBlocks && inst.lanes > 0
  {
    hash(LastColumn(inst, xor, RunResult(c, inst, m0, x.tCost), inst.lanes), x.out.len)
  }

  /** Section 3.2 of RFC 9106, step 7: the blocks of the last column added up, lane by lane. */
  function LastColumn<B>(inst: Instance, xor: (B, B) -> B, mem: seq<B>, lanes: nat): B
    requires inst.Valid() && |mem| == inst.memoryBlocks && 1 <= lanes <= inst.lanes
  {
    OffRange(inst, lanes - 1, inst.laneLength - 1);
    var last := mem[Off(inst, lanes - 1, inst.laneLength - 1)];
    if lanes == 1 then last else xor(LastColumn(inst, xor, mem, lanes - 1), last)
  }

  /** The last block of every lane, added up from lane 0 on. */
  lemma LastColumnIs<B>(inst: Instance, xor: (B, B) -> B, mem: seq<B>, lanes: nat)
    requires inst.Valid() && |mem| == inst.memoryBlocks && 1 <= lanes <= inst.lanes
    ensures lanes * inst.laneLength <= |mem| && inst.laneLength > 0
    ensures var last := mem[lanes * inst.laneLength - 1];
            LastColumn(inst, xor, mem, lanes) ==
            if lanes == 1 then last else xor(LastColumn(inst, xor, mem, lanes - 1), last)
  {
    LaneBaseIsProduct(inst, lanes);
    OffRange(inst, lanes - 1, inst.laneLength - 1);
  }

  /** The loop of `argon2_finalize`; every block it reads has been written. */
  method AddLastBlocks<B(0)>(region: Region<B>, xor: (B, B) -> B, ghost passes: nat) returns (blockhash: B)
    requires region.Valid() && passes > 0 && region.Ready(passes, 0)
    ensures blockhash == LastColumn(region.inst, xor, region.memory[..], region.inst.lanes)
  {
    hide Off;
    var inst := region.inst;
    LastWritten(region, passes, 0);
    blockhash := region.Load(inst.laneLength - 1);
    var l := 1;
    while l < inst.lanes
      invariant 1 <= l <= inst.lanes
      invariant blockhash == LastColumn(inst, xor, region.memory[..], l)
    {
      LastWritten(region, passes, l);
      var last := region.Load(l * inst.laneLength + (inst.laneLength - 1));
      blockhash := xor(blockhash, last);
      l := l + 1;
    }
  }

  lemma LastWritten<B(0)>(region: Region<B>, passes: nat, lane: nat)
    requires region.Valid() && passes > 0 && region.Ready(passes, 0) && lane < region.inst.lanes
    ensures var inst := region.inst;
            var x := lane * inst.laneLength + (inst.laneLength - 1);
            x == Off(inst, lane, inst.laneLength - 1) < region.memory.Length && x in region.trace
    ensures lane == 0 ==> Off(region.inst, 0, region.inst.laneLength - 1) == region.inst.laneLength - 1
  {
    var inst := region.inst;
    LaneBaseIsProduct(inst, lane);
    OffRange(inst, lane, inst.laneLength - 1);
  }

  /** The loop over the passes. */
  method FillPasses<B(0)>(region: Region<B>)
    requires region.Valid() && region.Ready(0, 0)
    modifies region.memory, region.pseudoRands, region`trace
    ensures region.memory[..] == RunResult(region.c, region.inst, old(region.memory[..]), region.inst.passes)
    ensures region.Ready(region.inst.passes, 0)
  {
    hide FinalBlock, SliceResult, PassResult, Instance.LaneBase, Off, ReadyAfter;
    ghost var m1 := region.memory[..];
    var pass := 0;
    while pass < region.inst.passes
      invariant 0 <= pass <= region.inst.passes
      invariant region.Ready(pass, 0)
      invariant region.memory[..] == RunResult(region.c, region.inst, m1, pass)
    {
      region.FillMemoryBlocks(pass);
      pass := pass + 1;
    }
  }

  lemma AnySeededMemory<B>(c: Compression<B>, inst: Instance, seed: (nat, nat) -> B, m1: seq<B>, x: Context,
                           xor: (B, B) -> B, hash: (B, nat) -> seq<byte>)
    requires inst.Valid() && inst.lanes > 0 && |m1| == inst.memoryBlocks && Seeded(inst, seed, m1) && x.tCost > 0
    ensures forall m0 :: |m0| == inst.memoryBlocks && Seeded(inst, seed, m0) ==>
              Digest(c, inst, m0, x, xor, hash) == Digest(c, inst, m1, x, xor, hash)
  {
    hide RunResult, Seeded, LastColumn;
    forall m0 | |m0| == inst.memoryBlocks && Seeded(inst, seed, m0)
      ensures Digest(c, inst, m0, x, xor, hash) == Digest(c, inst, m1, x, xor, hash)
    {
      SeedsAgree(inst, seed, m0, m1);
      RunFromSeeds(c, inst, m0, m1, x.tCost);
    }
  }

  lemma SeedsAgree<B>(inst: Instance, seed: (nat, nat) -> B, m0: seq<B>, m1: seq<B>)
    requires inst.Valid() && |m0| == |m1| == inst.memoryBlocks
    requires Seeded(inst, seed, m0) && Seeded(inst, seed, m1)
    ensures AgreeBelow(inst, m0, m1, 0)
  {
    forall l, col | 0 <= l < inst.lanes && 0 <= col < 2
      ensures (OffRange(inst, l, col); m0[Off(inst, l, col)] == m1[Off(inst, l, col)])
    {
      OffRange(inst, l, col);
      assert m0[Off(inst, l, col)] == seed(l, col);
      assert m1[Off(inst, l, col)] == seed(l, col);
    }
  }
}
