/**
 The reference filler as the code runs it, on a flat array with 32-bit offsets, and
 whole passes over the memory. Every load demands that the block has been written.
 */
module Argon2Fill {
  import opened Machine
  import opened Argon2Index
  import opened Argon2Segment

  // ---------------------------------------------------------- write order

  /** Offsets written by one segment up to index `n`, in order. */
  function SegmentTrace(inst: Instance, pass: nat, slice: nat, lane: nat, n: nat): seq<nat> {
    if n <= StartIndex(pass, slice) then []
    else SegmentTrace(inst, pass, slice, lane, n - 1) + [Off(inst, lane, inst.SliceBase(slice) + n - 1)]
  }

  /** Offsets written by the first `lanes` lanes of a slice. */
  function SliceTrace(inst: Instance, pass: nat, slice: nat, lanes: nat): seq<nat> {
    if lanes == 0 then []
    else SliceTrace(inst, pass, slice, lanes - 1) + SegmentTrace(inst, pass, slice, lanes - 1, inst.segmentLength)
  }

  /** Offsets written by the first `slices` slices of a pass. */
  function PassTrace(inst: Instance, pass: nat, slices: nat): seq<nat> {
    if slices == 0 then []
    else PassTrace(inst, pass, slices - 1) + SliceTrace(inst, pass, slices - 1, inst.lanes)
  }

  lemma CountSnoc(a: seq<nat>, x: nat, y: nat)
    ensures multiset(a + [x])[y] == multiset(a)[y] + if x == y then 1 else 0
  {
  }

  lemma {:induction false} SegmentCount(inst: Instance, pass: nat, slice: nat, lane: nat, n: nat, l: nat, col: nat)
    requires inst.Sliced() && slice < SYNC_POINTS && n <= inst.segmentLength && col < inst.laneLength
    ensures multiset(SegmentTrace(inst, pass, slice, lane, n))[Off(inst, l, col)]
            == if l == lane && inst.SliceBase(slice) + StartIndex(pass, slice) <= col < inst.SliceBase(slice) + n
               then 1 else 0
  {
    hide Off, StartIndex;
    if n <= StartIndex(pass, slice) {
    } else {
      var column := inst.SliceBase(slice) + n - 1;
      assert column < inst.laneLength;
      assert SegmentTrace(inst, pass, slice, lane, n)
          == SegmentTrace(inst, pass, slice, lane, n - 1) + [Off(inst, lane, column)];
      hide SegmentTrace;
      SegmentCount(inst, pass, slice, lane, n - 1, l, col);
      CountSnoc(SegmentTrace(inst, pass, slice, lane, n - 1), Off(inst, lane, column), Off(inst, l, col));
      if Off(inst, l, col) == Off(inst, lane, column) {
        OffInjective(inst, l, col, lane, column);
      }
    }
  }

  lemma {:induction false} SliceCount(inst: Instance, pass: nat, slice: nat, lanes: nat, l: nat, col: nat)
    requires inst.Sliced() && slice < SYNC_POINTS && col < inst.laneLength
    ensures multiset(SliceTrace(inst, pass, slice, lanes))[Off(inst, l, col)]
            == if l < lanes && InSlice(inst, slice, col) && inst.SliceBase(slice) + StartIndex(pass, slice) <= col
               then 1 else 0
  {
    hide SegmentTrace, Off;
    if lanes > 0 {
      SliceCount(inst, pass, slice, lanes - 1, l, col);
      SegmentCount(inst, pass, slice, lanes - 1, inst.segmentLength, l, col);
      assert multiset(SliceTrace(inst, pass, slice, lanes))
          == multiset(SliceTrace(inst, pass, slice, lanes - 1))
             + multiset(SegmentTrace(inst, pass, slice, lanes - 1, inst.segmentLength));
    }
  }

  lemma {:induction false} PassCount(inst: Instance, pass: nat, slices: nat, l: nat, col: nat)
    requires inst.Sliced() && slices <= SYNC_POINTS && col < inst.laneLength
    ensures multiset(PassTrace(inst, pass, slices))[Off(inst, l, col)]
            == if l < inst.lanes && col < ReadyColumns(inst, slices) && !(pass == 0 && col < 2) then 1 else 0
  {
    hide SegmentTrace, SliceTrace, Off, InSlice, StartIndex;
    if slices > 0 {
      PassCount(inst, pass, slices - 1, l, col);
      SliceCount(inst, pass, slices - 1, inst.lanes, l, col);
      assert multiset(PassTrace(inst, pass, slices))
          == multiset(PassTrace(inst, pass, slices - 1)) + multiset(SliceTrace(inst, pass, slices - 1, inst.lanes));
      SliceCovers(inst, pass, slices - 1, col);
    }
  }

  lemma SliceCovers(inst: Instance, pass: nat, slice: nat, col: nat)
    requires inst.Sliced() && slice < SYNC_POINTS && col < inst.laneLength
    ensures col < ReadyColumns(inst, slice + 1) <==> col < ReadyColumns(inst, slice) || InSlice(inst, slice, col)
    ensures !(col < ReadyColumns(inst, slice) && InSlice(inst, slice, col))
    ensures InSlice(inst, slice, col) ==>
              (inst.SliceBase(slice) + StartIndex(pass, slice) <= col <==> !(pass == 0 && col < 2))
  {
  }

  /** Columns before a slice; all of them after the last one. */
  function ReadyColumns(inst: Instance, slices: nat): nat {
    if slices >= SYNC_POINTS then inst.laneLength else inst.SliceBase(slices)
  }

  /** Each pass writes every block exactly once; the first pass leaves the two seeded blocks of a lane. */
  lemma EachBlockOnce(inst: Instance, pass: nat, x: nat)
    requires inst.Valid() && x < inst.memoryBlocks
    ensures multiset(PassTrace(inst, pass, SYNC_POINTS))[x] == if pass == 0 && LaneOf(inst, x).1 < 2 then 0 else 1
  {
    OffOnto(inst, x);
    PassCount(inst, pass, SYNC_POINTS, LaneOf(inst, x).0, LaneOf(inst, x).1);
  }

  // -------------------------------------------------------------- results

  /** Memory after the first `slices` slices of a pass. */
  function PassResult<B>(c: Compression<B>, inst: Instance, m0: seq<B>, pass: nat, slices: nat): (r: seq<B>)
    requires inst.Valid() && slices <= SYNC_POINTS && |m0| == inst.memoryBlocks
    ensures |r| == |m0|
  {
    if slices == 0 then m0
    else SliceResult(c, inst, PassResult(c, inst, m0, pass, slices - 1), pass, slices - 1)
  }

  /** Memory after a number of passes. */
  function RunResult<B>(c: Compression<B>, inst: Instance, m0: seq<B>, passes: nat): (r: seq<B>)
    requires inst.Valid() && |m0| == inst.memoryBlocks
    ensures |r| == |m0|
  {
    if passes == 0 then m0
    else PassResult(c, inst, RunResult(c, inst, m0, passes - 1), passes - 1, SYNC_POINTS)
  }

  // ---------------------------------------------- unwritten blocks do not matter

  /** Agreement on the columns that hold values at the start of a slice of the first pass. */
  ghost predicate AgreeBelow<B>(inst: Instance, m0: seq<B>, m1: seq<B>, columns: nat)
    requires inst.Valid() && |m0| == |m1| == inst.memoryBlocks
  {
    forall l, col :: 0 <= l < inst.lanes && 0 <= col < inst.laneLength && (col < columns || col < 2)
      ==> (OffRange(inst, l, col); m0[Off(inst, l, col)] == m1[Off(inst, l, col)])
  }

  lemma {:induction false} FirstPassBlock<B>(c: Compression<B>, inst: Instance, m0: seq<B>, m1: seq<B>, pos: Position)
    requires inst.Valid() && pos.In(inst) && pos.pass == 0 && |m0| == |m1| == inst.memoryBlocks
    requires AgreeBelow(inst, m0, m1, inst.SliceBase(pos.slice))
    ensures FinalBlock(c, inst, m0, pos) == FinalBlock(c, inst, m1, pos)
    decreases pos.index, 1
  {
    hide FinalBlock;
    ReadsAllowed(inst, pos, 0);
    OffRange(inst, pos.lane, PrevColumn(inst, pos));
    if pos.index > StartIndex(pos.pass, pos.slice) {
      FirstPassBlock(c, inst, m0, m1, pos.(index := pos.index - 1));
    }
    var prev := FinalPrev(c, inst, m0, pos);
    assert prev == FinalPrev(c, inst, m1, pos);
    var rand := PseudoRand(c, inst, pos, prev);
    ReadsAllowed(inst, pos, rand);
    FirstPassRef(c, inst, m0, m1, pos, RefLane(inst, pos, rand), RefColumn(inst, pos, rand));
    FinalBlockUnfolded(c, inst, m0, pos);
    FinalBlockUnfolded(c, inst, m1, pos);
  }

  lemma {:induction false} FirstPassRef<B>(c: Compression<B>, inst: Instance, m0: seq<B>, m1: seq<B>, pos: Position,
                                          refLane: nat, refColumn: nat)
    requires inst.Valid() && pos.In(inst) && pos.pass == 0 && |m0| == |m1| == inst.memoryBlocks
    requires AgreeBelow(inst, m0, m1, inst.SliceBase(pos.slice))
    requires refLane < inst.lanes && refColumn < pos.Column(inst) < inst.laneLength
    requires refLane != pos.lane ==> refColumn < inst.SliceBase(pos.slice)
    ensures FinalRef(c, inst, m0, pos, refLane, refColumn) == FinalRef(c, inst, m1, pos, refLane, refColumn)
    decreases pos.index, 0
  {
    hide FinalBlock;
    OffRange(inst, refLane, refColumn);
    if OwnEarlier(inst, pos, refLane, refColumn) {
      FirstPassBlock(c, inst, m0, m1, pos.(index := refColumn - inst.SliceBase(pos.slice)));
    }
  }

  lemma FirstPassSlice<B>(c: Compression<B>, inst: Instance, m0: seq<B>, m1: seq<B>, slice: nat)
    requires inst.Valid() && slice < SYNC_POINTS && |m0| == |m1| == inst.memoryBlocks
    requires AgreeBelow(inst, m0, m1, inst.SliceBase(slice))
    ensures AgreeBelow(inst, SliceResult(c, inst, m0, 0, slice), SliceResult(c, inst, m1, 0, slice),
                       ReadyColumns(inst, slice + 1))
  {
    var r0, r1 := SliceResult(c, inst, m0, 0, slice), SliceResult(c, inst, m1, 0, slice);
    SliceResultProgressed(c, inst, m0, 0, slice);
    SliceResultProgressed(c, inst, m1, 0, slice);
    forall l, col | 0 <= l < inst.lanes && 0 <= col < inst.laneLength
      && (col < ReadyColumns(inst, slice + 1) || col < 2)
      ensures (OffRange(inst, l, col); r0[Off(inst, l, col)] == r1[Off(inst, l, col)])
    {
      ReadIsFinal(c, inst, m0, 0, slice, Complete(inst), r0, l, col);
      ReadIsFinal(c, inst, m1, 0, slice, Complete(inst), r1, l, col);
      FirstPassPartial(c, inst, m0, m1, slice, l, col);
    }
  }

  lemma FirstPassPartial<B>(c: Compression<B>, inst: Instance, m0: seq<B>, m1: seq<B>, slice: nat, l: nat, col: nat)
    requires inst.Valid() && slice < SYNC_POINTS && |m0| == |m1| == inst.memoryBlocks
    requires AgreeBelow(inst, m0, m1, inst.SliceBase(slice))
    requires l < inst.lanes && col < inst.laneLength && (col < ReadyColumns(inst, slice + 1) || col < 2)
    ensures Partial(c, inst, m0, 0, slice, inst.segmentLength, l, col)
        == Partial(c, inst, m1, 0, slice, inst.segmentLength, l, col)
  {
    hide FinalBlock;
    OffRange(inst, l, col);
    var base := inst.SliceBase(slice);
    if base + StartIndex(0, slice) <= col < base + inst.segmentLength {
      FirstPassBlock(c, inst, m0, m1, Position(0, l, slice, col - base));
    }
  }

  /** The first pass depends on nothing but the two seeded blocks of each lane. */
  lemma FirstPassFromSeeds<B>(c: Compression<B>, inst: Instance, m0: seq<B>, m1: seq<B>)
    requires inst.Valid() && |m0| == |m1| == inst.memoryBlocks
    requires AgreeBelow(inst, m0, m1, 0)
    ensures PassResult(c, inst, m0, 0, SYNC_POINTS) == PassResult(c, inst, m1, 0, SYNC_POINTS)
  {
    FirstPassUpTo(c, inst, m0, m1, SYNC_POINTS);
    var r0, r1 := PassResult(c, inst, m0, 0, SYNC_POINTS), PassResult(c, inst, m1, 0, SYNC_POINTS);
    forall x | 0 <= x < inst.memoryBlocks ensures r0[x] == r1[x] {
      OffOnto(inst, x);
      var (l, col) := LaneOf(inst, x);
      assert r0[Off(inst, l, col)] == r1[Off(inst, l, col)];
    }
  }

  lemma {:induction false} FirstPassUpTo<B>(c: Compression<B>, inst: Instance, m0: seq<B>, m1: seq<B>, slices: nat)
    requires inst.Valid() && |m0| == |m1| == inst.memoryBlocks && slices <= SYNC_POINTS
    requires AgreeBelow(inst, m0, m1, 0)
    ensures AgreeBelow(inst, PassResult(c, inst, m0, 0, slices), PassResult(c, inst, m1, 0, slices),
                       ReadyColumns(inst, slices))
  {
    hide SliceResult, AgreeBelow;
    if slices > 0 {
      FirstPassUpTo(c, inst, m0, m1, slices - 1);
      FirstPassSlice(c, inst, PassResult(c, inst, m0, 0, slices - 1), PassResult(c, inst, m1, 0, slices - 1),
                     slices - 1);
    }
  }

  lemma {:induction false} RunFromSeeds<B>(c: Compression<B>, inst: Instance, m0: seq<B>, m1: seq<B>, passes: nat)
    requires inst.Valid() && |m0| == |m1| == inst.memoryBlocks && passes > 0
    requires AgreeBelow(inst, m0, m1, 0)
    ensures RunResult(c, inst, m0, passes) == RunResult(c, inst, m1, passes)
  {
    hide PassResult, AgreeBelow;
    if passes == 1 {
      assert RunResult(c, inst, m0, 0) == m0 && RunResult(c, inst, m1, 0) == m1;
      FirstPassFromSeeds(c, inst, m0, m1);
    } else {
      RunFromSeeds(c, inst, m0, m1, passes - 1);
    }
  }

  // ------------------------------------------- the run as the RFC puts it

  function SliceOf(inst: Instance, col: nat): nat {
    if col < inst.SliceBase(1) then 0
    else if col < inst.SliceBase(2) then 1
    else if col < inst.SliceBase(3) then 2 else 3
  }

  lemma SliceOfColumn(inst: Instance, col: nat)
    requires inst.Sliced() && col < inst.laneLength
    ensures var s := SliceOf(inst, col);
            s < SYNC_POINTS && inst.SliceBase(s) <= col < inst.SliceBase(s) + inst.segmentLength
    ensures forall t :: 0 <= t < SYNC_POINTS && t != SliceOf(inst, col) ==>
              !(inst.SliceBase(t) <= col < inst.SliceBase(t) + inst.segmentLength)
  {
  }

  /** A block after some slices of a pass: the recurrence's from the slice it lies in on, the old one before. */
  lemma {:induction false} PassAt<B>(c: Compression<B>, inst: Instance, m: seq<B>, pass: nat, slices: nat,
                                     l: nat, col: nat)
    requires inst.Valid() && slices <= SYNC_POINTS && |m| == inst.memoryBlocks
    requires l < inst.lanes && col < inst.laneLength
    ensures var t := SliceOf(inst, col);
            var index := col - inst.SliceBase(t);
            && t < SYNC_POINTS && 0 <= index < inst.segmentLength
            && BlockAt(inst, PassResult(c, inst, m, pass, slices), l, col) ==
               if t < slices && StartIndex(pass, t) <= index
               then FinalBlock(c, inst, PassResult(c, inst, m, pass, t), Position(pass, l, t, index))
               else BlockAt(inst, m, l, col)
  {
    hide FinalBlock, SliceResult, Off;
    SliceOfColumn(inst, col);
    if slices > 0 {
      var m' := PassResult(c, inst, m, pass, slices - 1);
      PassAt(c, inst, m, pass, slices - 1, l, col);
      SliceResultProgressed(c, inst, m', pass, slices - 1);
      ReadIsFinal(c, inst, m', pass, slices - 1, Complete(inst), SliceResult(c, inst, m', pass, slices - 1), l, col);
    }
  }

  /** What a block of a pass sees elsewhere: this pass's block if it is older, else the one of the pass before. */
  function Latest<B>(inst: Instance, before: seq<B>, after: seq<B>, pos: Position, l: nat, col: nat): B
    requires inst.Valid() && l < inst.lanes && col < inst.laneLength && |before| == |after| == inst.memoryBlocks
  {
    if col < pos.slice * inst.segmentLength || (l == pos.lane && col < pos.slice * inst.segmentLength + pos.index)
    then BlockAt(inst, after, l, col) else BlockAt(inst, before, l, col)
  }

  /** The memory in front of a slice shows exactly the latest blocks, but for the own segment. */
  lemma SliceSees<B>(c: Compression<B>, inst: Instance, m: seq<B>, pos: Position, l: nat, col: nat)
    requires inst.Valid() && pos.In(inst) && |m| == inst.memoryBlocks && l < inst.lanes && col < inst.laneLength
    requires InSlice(inst, pos.slice, col) ==> l == pos.lane && col < pos.Column(inst)
    ensures FinalRef(c, inst, PassResult(c, inst, m, pos.pass, pos.slice), pos, l, col)
            == Latest(inst, m, PassResult(c, inst, m, pos.pass, SYNC_POINTS), pos, l, col)
  {
    hide FinalBlock, PassResult, Off;
    SliceBaseIsProduct(inst, pos.slice);
    SliceOfColumn(inst, col);
    PassAt(c, inst, m, pos.pass, pos.slice, l, col);
    PassAt(c, inst, m, pos.pass, SYNC_POINTS, l, col);
  }

  lemma PrevSees<B>(c: Compression<B>, inst: Instance, m: seq<B>, pos: Position, prevCol: nat)
    requires inst.Valid() && pos.In(inst) && |m| == inst.memoryBlocks
    requires prevCol == PrevColumn(inst, pos) < inst.laneLength
    ensures FinalPrev(c, inst, PassResult(c, inst, m, pos.pass, pos.slice), pos)
            == Latest(inst, m, PassResult(c, inst, m, pos.pass, SYNC_POINTS), pos, pos.lane, prevCol)
  {
    hide FinalBlock, PassResult, Off;
    PrevInSegment(inst, pos);
    ReadsAllowed(inst, pos, 0);
    SliceBaseIsProduct(inst, pos.slice);
    SliceOfColumn(inst, prevCol);
    PassAt(c, inst, m, pos.pass, pos.slice, pos.lane, prevCol);
    PassAt(c, inst, m, pos.pass, SYNC_POINTS, pos.lane, prevCol);
  }

  /**
   Sections 3.2 and 3.4 of RFC 9106 for a whole run: every block a pass writes is the compression
   of the previous block of its lane and the block that J1 and J2 select in W, each as this pass
   has it if already written and as the pass before left it if not, with the old block folded in
   after the first pass.
   */
  lemma RunIsRfc<B>(c: Compression<B>, inst: Instance, m0: seq<B>, pos: Position, col: nat, prevCol: nat,
                    j1: u32, j2: u32)
    requires inst.Valid() && pos.In(inst) && |m0| == inst.memoryBlocks
    requires col == pos.slice * inst.segmentLength + pos.index < inst.laneLength
    requires prevCol == (col + inst.laneLength - 1) % inst.laneLength < inst.laneLength
    requires var before, after := RunResult(c, inst, m0, pos.pass), RunResult(c, inst, m0, pos.pass + 1);
             j1 + U32 * j2 ==
             if inst.hybrid && (pos.pass > 0 || pos.slice >= 2)
             then c.word(Latest(inst, before, after, pos, pos.lane, prevCol), 0)
             else c.word(c.fillXor(c.zero, c.fillXor(c.zero,
                           c.input(inst, pos.pass, pos.lane, pos.slice, pos.index / 128 + 1), c.zero), c.zero),
                         pos.index % 128)
    ensures var before, after := RunResult(c, inst, m0, pos.pass), RunResult(c, inst, m0, pos.pass + 1);
            var l := if pos.pass == 0 && pos.slice == 0 then pos.lane else j2 % inst.lanes;
            var w := Window(inst, pos, l == pos.lane);
            && l < inst.lanes && 0 <= Selected(|w|, j1) < |w| && w[Selected(|w|, j1)] < inst.laneLength
            && var prev, ref := Latest(inst, before, after, pos, pos.lane, prevCol),
                                Latest(inst, before, after, pos, l, w[Selected(|w|, j1)]);
               BlockAt(inst, after, pos.lane, col) ==
               if pos.pass == 0 then c.fill(prev, ref) else c.fillXor(prev, ref, BlockAt(inst, before, pos.lane, col))
  {
    hide FinalBlock, Window, Selected, IndexAlpha, Off, PassResult, Latest;
    var before := RunResult(c, inst, m0, pos.pass);
    var after := PassResult(c, inst, before, pos.pass, SYNC_POINTS);
    var front := PassResult(c, inst, before, pos.pass, pos.slice);
    PreviousIsRfc(inst, pos, col, prevCol);
    PrevSees(c, inst, before, pos, prevCol);
    var rand: u64 := j1 + U32 * j2;
    DivModUnique(j2, j1, U32);
    assert rand == PseudoRand(c, inst, pos, FinalPrev(c, inst, front, pos));
    ReadsAllowed(inst, pos, rand);
    var l, rc := RefLane(inst, pos, rand), RefColumn(inst, pos, rand);
    IndexAlphaIsRfc(inst, pos, j1, l == pos.lane);
    SliceSees(c, inst, before, pos, l, rc);
    FinalBlockUnfolded(c, inst, front, pos);
    OwnBlock(c, inst, before, pos);
  }

  /** The block itself: old in front of its slice, the recurrence's after the pass. */
  lemma OwnBlock<B>(c: Compression<B>, inst: Instance, m: seq<B>, pos: Position)
    requires inst.Valid() && pos.In(inst) && |m| == inst.memoryBlocks
    ensures var col, front := pos.Column(inst), PassResult(c, inst, m, pos.pass, pos.slice);
            && col < inst.laneLength && BlockAt(inst, front, pos.lane, col) == BlockAt(inst, m, pos.lane, col)
            && BlockAt(inst, PassResult(c, inst, m, pos.pass, SYNC_POINTS), pos.lane, col)
               == FinalBlock(c, inst, front, pos)
  {
    hide FinalBlock, PassResult, Off;
    ColumnInSlice(inst, pos);
    SliceOfColumn(inst, pos.Column(inst));
    PassAt(c, inst, m, pos.pass, pos.slice, pos.lane, pos.Column(inst));
    PassAt(c, inst, m, pos.pass, SYNC_POINTS, pos.lane, pos.Column(inst));
    assert pos == Position(pos.pass, pos.lane, pos.slice, pos.index);
  }

  /** The seeded blocks stay through the first pass. */
  lemma SeedsStay<B>(c: Compression<B>, inst: Instance, m0: seq<B>, l: nat, k: nat)
    requires inst.Valid() && |m0| == inst.memoryBlocks && l < inst.lanes && k < 2
    ensures BlockAt(inst, RunResult(c, inst, m0, 1), l, k) == BlockAt(inst, m0, l, k)
  {
    hide FinalBlock, PassResult, Off;
    assert RunResult(c, inst, m0, 0) == m0;
    PassAt(c, inst, m0, 0, SYNC_POINTS, l, k);
  }

  // ---------------------------------------------------------- the code

  lemma CurrentOffset(inst: Instance, pos: Position)
    requires inst.Valid() && pos.lane < inst.lanes && pos.slice < SYNC_POINTS && pos.index <= inst.segmentLength
    ensures Wrap32(Wrap32(Wrap32(pos.lane * inst.laneLength) + Wrap32(pos.slice * inst.segmentLength)) + pos.index)
            == Off(inst, pos.lane, pos.Column(inst)) <= inst.memoryBlocks
  {
    hide Wrap32;
    LaneBaseIsProduct(inst, pos.lane);
    SliceBaseIsProduct(inst, pos.slice);
    LaneBaseStep(inst, pos.lane, inst.lanes);
    ThreeSums(pos.lane * inst.laneLength, pos.slice * inst.segmentLength, pos.index);
  }

  lemma OffIsCode(inst: Instance, lane: nat, col: nat)
    ensures inst.laneLength * lane + col == Off(inst, lane, col)
  {
    LaneBaseIsProduct(inst, lane);
  }

  lemma ThreeSums(a: nat, b: nat, c: nat)
    requires a + b + c < U32
    ensures Wrap32(Wrap32(Wrap32(a) + Wrap32(b)) + c) == a + b + c
  {
  }

  lemma OffsetModLane(inst: Instance, lane: nat, col: nat)
    requires inst.Sliced() && col < inst.laneLength
    ensures Off(inst, lane, col) % inst.laneLength == col
  {
    LaneBaseIsProduct(inst, lane);
    DivModUnique(lane, col, inst.laneLength);
  }

  /** The predecessor of a segment's first block, wrapping to the end of the lane in column 0. */
  lemma FirstPrevious(inst: Instance, pos: Position, currOffset: u32)
    requires inst.Valid() && pos.lane < inst.lanes && pos.slice < SYNC_POINTS
    requires pos.index == StartIndex(pos.pass, pos.slice)
    requires currOffset == Off(inst, pos.lane, pos.Column(inst))
    ensures currOffset % inst.laneLength == 0 ==>
              Wrap32(currOffset + inst.laneLength - 1) == Off(inst, pos.lane, PrevColumn(inst, pos))
    ensures currOffset % inst.laneLength != 0 ==>
              Wrap32(currOffset - 1) == Off(inst, pos.lane, PrevColumn(inst, pos))
  {
    assert pos.Column(inst) < inst.laneLength;
    OffsetModLane(inst, pos.lane, pos.Column(inst));
    OffRange(inst, pos.lane, inst.laneLength - 1);
  }

  /** `prevOffset` is rotated exactly in column 1, to the predecessor. */
  lemma RotationNeeded(inst: Instance, pos: Position, currOffset: u32)
    requires inst.Valid() && pos.In(inst) && currOffset == Off(inst, pos.lane, pos.Column(inst))
    ensures currOffset % inst.laneLength == 1 <==> pos.Column(inst) == 1
    ensures pos.Column(inst) == 1 ==> Wrap32(currOffset - 1) == Off(inst, pos.lane, PrevColumn(inst, pos))
  {
    ColumnInSlice(inst, pos);
    OffsetModLane(inst, pos.lane, pos.Column(inst));
  }

  /** The offsets advance without wrapping at 32 bits. */
  lemma NextOffsets(inst: Instance, pos: Position, currOffset: u32, prevOffset: u32)
    requires inst.Valid() && pos.In(inst)
    requires currOffset == Off(inst, pos.lane, pos.Column(inst))
    requires prevOffset == Off(inst, pos.lane, PrevColumn(inst, pos))
    ensures Wrap32(currOffset + 1) == currOffset + 1 && Wrap32(prevOffset + 1) == prevOffset + 1
    ensures Wrap32(currOffset + 1) == Off(inst, pos.lane, pos.Column(inst) + 1)
    ensures var next := pos.(index := pos.index + 1);
            pos.Column(inst) != 0 ==> Wrap32(prevOffset + 1) == Off(inst, pos.lane, PrevColumn(inst, next))
  {
    ColumnInSlice(inst, pos);
    OffRange(inst, pos.lane, pos.Column(inst));
    OffRange(inst, pos.lane, inst.laneLength - 1);
  }

  function LaneProgress(inst: Instance, pass: nat, slice: nat, l: nat, k: int): nat {
    if k < l then inst.segmentLength else StartIndex(pass, slice)
  }

  /** Progress when the first `l` lanes of a slice are complete and the others untouched. */
  function LanesDone(inst: Instance, pass: nat, slice: nat, l: nat): (r: seq<nat>)
    requires inst.Sliced()
    ensures IsProgress(inst, r)
    ensures forall k :: 0 <= k < |r| ==> r[k] == if k < l then inst.segmentLength else StartIndex(pass, slice)
  {
    seq(inst.lanes, k => LaneProgress(inst, pass, slice, l, k))
  }

  lemma NextLaneDone<B>(c: Compression<B>, inst: Instance, m0: seq<B>, pass: nat, slice: nat, l: nat, m1: seq<B>,
                        m2: seq<B>)
    requires inst.Valid() && slice < SYNC_POINTS && l < inst.lanes && |m0| == inst.memoryBlocks
    requires Progressed(c, inst, m0, pass, slice, LanesDone(inst, pass, slice, l), m1)
    requires SegmentFilled(c, inst, pass, slice, l, m1, m2)
    ensures Progressed(c, inst, m0, pass, slice, LanesDone(inst, pass, slice, l + 1), m2)
  {
    hide FinalBlock, Progressed, SegmentFilled;
    SegmentAfterOthers(c, inst, m0, pass, slice, l, LanesDone(inst, pass, slice, l), m1, m2);
    assert LanesDone(inst, pass, slice, l)[l := inst.segmentLength] == LanesDone(inst, pass, slice, l + 1);
  }

  lemma AllLanesDone<B>(c: Compression<B>, inst: Instance, m0: seq<B>, pass: nat, slice: nat, mem: seq<B>)
    requires inst.Valid() && slice < SYNC_POINTS && |m0| == inst.memoryBlocks
    requires Progressed(c, inst, m0, pass, slice, LanesDone(inst, pass, slice, inst.lanes), mem)
    ensures mem == SliceResult(c, inst, m0, pass, slice)
  {
    hide FinalBlock, Progressed, SliceResult;
    assert LanesDone(inst, pass, slice, inst.lanes) == Complete(inst);
    SliceResultProgressed(c, inst, m0, pass, slice);
    ProgressedUnique(c, inst, m0, pass, slice, Complete(inst), mem, SliceResult(c, inst, m0, pass, slice));
  }

  /** Every block that a segment of this slice may read, its own later blocks apart, is in the trace. */
  ghost predicate ReadyAfter(inst: Instance, trace: seq<nat>, pass: nat, slice: nat) {
    forall l, col :: 0 <= l < inst.lanes && 0 <= col < inst.laneLength ==>
      pass > 0 || col < inst.SliceBase(slice) || col < 2 ==> Off(inst, l, col) in trace
  }

  /** The first `lanes` lanes hold their two seed blocks. */
  ghost predicate SeededLanes<B>(inst: Instance, seed: (nat, nat) -> B, mem: seq<B>, lanes: nat)
    requires inst.Valid() && |mem| == inst.memoryBlocks && lanes <= inst.lanes
  {
    forall l, k :: 0 <= l < lanes && 0 <= k < 2 ==> (OffRange(inst, l, k); mem[Off(inst, l, k)] == seed(l, k))
  }

  ghost predicate Seeded<B>(inst: Instance, seed: (nat, nat) -> B, mem: seq<B>)
    requires inst.Valid() && |mem| == inst.memoryBlocks
  {
    SeededLanes(inst, seed, mem, inst.lanes)
  }

  function SeedTrace(inst: Instance, lanes: nat): seq<nat> {
    if lanes == 0 then []
    else SeedTrace(inst, lanes - 1) + [Off(inst, lanes - 1, 0)] + [Off(inst, lanes - 1, 1)]
  }

  lemma SeededNone<B>(inst: Instance, seed: (nat, nat) -> B, mem: seq<B>)
    requires inst.Valid() && |mem| == inst.memoryBlocks
    ensures SeededLanes(inst, seed, mem, 0)
  {
  }

  lemma SeedStep<B>(inst: Instance, seed: (nat, nat) -> B, mem: seq<B>, l: nat)
    requires inst.Valid() && |mem| == inst.memoryBlocks && l < inst.lanes
    requires SeededLanes(inst, seed, mem, l)
    ensures Off(inst, l, 0) < |mem| && Off(inst, l, 1) < |mem|
    ensures SeededLanes(inst, seed, mem[Off(inst, l, 0) := seed(l, 0)][Off(inst, l, 1) := seed(l, 1)], l + 1)
  {
    hide Off;
    OffRange(inst, l, 0);
    OffRange(inst, l, 1);
    var mem' := mem[Off(inst, l, 0) := seed(l, 0)][Off(inst, l, 1) := seed(l, 1)];
    forall l', k | 0 <= l' < l + 1 && 0 <= k < 2
      ensures (OffRange(inst, l', k); mem'[Off(inst, l', k)] == seed(l', k))
    {
      OffRange(inst, l', k);
      forall j | 0 <= j < 2 && Off(inst, l', k) == Off(inst, l, j) ensures l' == l && k == j {
        OffInjective(inst, l', k, l, j);
      }
      if l' < l {
        assert mem[Off(inst, l', k)] == seed(l', k);
      }
    }
  }

  lemma SeedsReady(inst: Instance, trace: seq<nat>)
    ensures ReadyAfter(inst, trace + SeedTrace(inst, inst.lanes), 0, 0)
  {
    forall l, col | 0 <= l < inst.lanes && 0 <= col < 2
      ensures Off(inst, l, col) in SeedTrace(inst, inst.lanes)
    {
      SeedTraced(inst, inst.lanes, l, col);
    }
  }

  lemma {:induction false} SeedTraced(inst: Instance, lanes: nat, l: nat, col: nat)
    requires l < lanes && col < 2
    ensures Off(inst, l, col) in SeedTrace(inst, lanes)
  {
    if l < lanes - 1 {
      SeedTraced(inst, lanes - 1, l, col);
    }
  }

  /** The memory region of one computation, with a record of the offsets written so far. */
  class Region<B(0)> {
    const c: Compression<B>
    const inst: Instance
    const memory: array<B>
    const pseudoRands: array<u64>
    ghost var trace: seq<nat>

    ghost predicate Valid() {
      && inst.Valid()
      && memory.Length == inst.memoryBlocks
      && pseudoRands.Length == inst.segmentLength
      && memory as object != pseudoRands
    }

    ghost predicate Ready(pass: nat, slice: nat)
      reads this
    {
      ReadyAfter(inst, trace, pass, slice)
    }

    /** The blocks of its own segment that precede `pos`. */
    ghost predicate OwnReady(pos: Position)
      reads this
    {
      forall col :: inst.SliceBase(pos.slice) + StartIndex(pos.pass, pos.slice) <= col < pos.Column(inst) ==>
        Off(inst, pos.lane, col) in trace
    }

    constructor (c: Compression<B>, inst: Instance)
      requires inst.Valid()
      ensures Valid() && this.c == c && this.inst == inst && trace == []
      ensures fresh(memory) && fresh(pseudoRands)
    {
      this.c, this.inst := c, inst;
      memory := new B[inst.memoryBlocks];
      pseudoRands := new u64[inst.segmentLength];
      trace := [];
    }

    /** `argon2_fill_first_blocks`: the first two blocks of every lane. */
    method FillFirstBlocks(seed: (nat, nat) -> B)
      requires Valid()
      modifies memory, this`trace
      ensures Seeded(inst, seed, memory[..])
      ensures trace == old(trace) + SeedTrace(inst, inst.lanes)
      ensures Ready(0, 0)
    {
      hide Off, SeededLanes;
      ghost var trace0 := trace;
      SeededNone(inst, seed, memory[..]);
      var l := 0;
      while l < inst.lanes
        invariant 0 <= l <= inst.lanes
        invariant SeededLanes(inst, seed, memory[..], l)
        invariant trace == trace0 + SeedTrace(inst, l)
      {
        OffRange(inst, l, 0);
        OffRange(inst, l, 1);
        OffIsCode(inst, l, 0);
        OffIsCode(inst, l, 1);
        SeedStep(inst, seed, memory[..], l);
        Store(l * inst.laneLength + 0, seed(l, 0));
        Store(l * inst.laneLength + 1, seed(l, 1));
        l := l + 1;
      }
      SeedsReady(inst, trace0);
    }

    method Load(x: u32) returns (b: B)
      requires x < memory.Length && x in trace
      ensures b == memory[x]
    {
      b := memory[x];
    }

    method Store(x: u32, b: B)
      requires x < memory.Length
      modifies memory, this`trace
      ensures memory[..] == old(memory[..])[x := b]
      ensures trace == old(trace) + [x]
    {
      memory[x] := b;
      trace := trace + [x];
    }

    /** `generate_addresses`: one address per block of the segment, 128 per generated block. */
    method GenerateAddresses(position: Position)
      requires Valid()
      modifies pseudoRands
      ensures forall i :: 0 <= i < inst.segmentLength ==> pseudoRands[i] == c.Address(inst, position.(index := i))
    {
      var counter := 0;
      var addressBlock := c.zero;
      var i := 0;
      while i < inst.segmentLength
        invariant 0 <= i <= inst.segmentLength
        invariant counter == (i + ADDRESSES_IN_BLOCK - 1) / ADDRESSES_IN_BLOCK
        invariant i > 0 ==> addressBlock == c.AddressBlock(inst, position, counter)
        invariant forall k :: 0 <= k < i ==> pseudoRands[k] == c.Address(inst, position.(index := k))
      {
        if i % ADDRESSES_IN_BLOCK == 0 {
          counter := counter + 1;
          var input := c.input(inst, position.pass, position.lane, position.slice, counter);
          var tmp := c.fillXor(c.zero, input, c.zero);
          addressBlock := c.fillXor(c.zero, tmp, c.zero);
        }
        assert counter == i / ADDRESSES_IN_BLOCK + 1;
        assert addressBlock == c.AddressBlock(inst, position.(index := i), counter);
        pseudoRands[i] := c.word(addressBlock, i % ADDRESSES_IN_BLOCK);
        i := i + 1;
      }
    }

    /** `argon2_fill_segment_ref`. */
    method FillSegment(position: Position)
      requires Valid() && position.lane < inst.lanes && position.slice < SYNC_POINTS
      requires Ready(position.pass, position.slice)
      modifies memory, pseudoRands, this`trace
      ensures SegmentFilled(c, inst, position.pass, position.slice, position.lane, old(memory[..]), memory[..])
      ensures trace == old(trace) + SegmentTrace(inst, position.pass, position.slice, position.lane, inst.segmentLength)
    {
      hide FinalBlock, NewBlock, Progressed, Partial, Off, PrevColumn, OffsetsAt, Position.Column,
        Compression.Address, ReadyAfter, Filling, Fresh, SegmentTrace, SegmentFilled;
      ghost var m0, trace0 := memory[..], trace;
      var dataIndependent := true;
      if inst.hybrid && (position.pass != 0 || position.slice >= SYNC_POINTS / 2) {
        dataIndependent := false;
      }
      if dataIndependent {
        GenerateAddresses(position);
      }
      var i: nat, currOffset: u32, prevOffset: u32 := FirstOffsets(position);
      StartFilling(m0, trace0, position, i);
      while i < inst.segmentLength
        invariant StartIndex(position.pass, position.slice) <= i <= inst.segmentLength
        invariant OffsetsAt(position.(index := i), currOffset, prevOffset)
        invariant Filling(m0, trace0, position.(index := i))
        invariant dataIndependent ==>
                    forall k :: 0 <= k < inst.segmentLength ==> pseudoRands[k] == c.Address(inst, position.(index := k))
      {
        i, currOffset, prevOffset := FillNext(m0, trace0, dataIndependent, position, i, currOffset, prevOffset);
      }
      FillingDone(m0, trace0, position);
    }

    /** One iteration of the filling loop: rotate, build a block, advance the offsets. */
    method FillNext(ghost m0: seq<B>, ghost trace0: seq<nat>,
                    dataIndependent: bool, position: Position, i: nat, currOffset: u32, prevOffset_: u32)
      returns (i': nat, currOffset': u32, prevOffset': u32)
      requires Valid() && |m0| == inst.memoryBlocks && position.(index := i).In(inst)
      requires OffsetsAt(position.(index := i), currOffset, prevOffset_)
      requires Filling(m0, trace0, position.(index := i))
      requires ReadyAfter(inst, trace0, position.pass, position.slice)
      requires dataIndependent == DataIndependent(inst, position)
      requires dataIndependent ==> pseudoRands[i] == c.Address(inst, position.(index := i))
      modifies memory, this`trace
      ensures i' == i + 1
      ensures OffsetsAt(position.(index := i'), currOffset', prevOffset')
      ensures Filling(m0, trace0, position.(index := i'))
    {
      hide FinalBlock, NewBlock, Progressed, Partial, Off, PrevColumn, Compression.Address;
      ghost var pos := position.(index := i);
      var prevOffset := prevOffset_;
      RotationNeeded(inst, pos, currOffset);
      if currOffset % inst.laneLength == 1 {
        prevOffset := Wrap32(currOffset - 1);
      }
      TraceReady(inst, pos);
      ghost var done := Fresh(inst, position.pass, position.slice)[position.lane := i];
      ProgressedStep(c, inst, m0, done, memory[..], pos);
      FillBlock(position, i, dataIndependent, currOffset, prevOffset);
      assert done[position.lane := i + 1] == Fresh(inst, position.pass, position.slice)[position.lane := i + 1];
      NextOffsets(inst, pos, currOffset, prevOffset);
      i', currOffset', prevOffset' := i + 1, Wrap32(currOffset + 1), Wrap32(prevOffset + 1);
    }

    /** The segment of `pos` has been built up to `pos.index`, starting from memory `m0`. */
    ghost predicate Filling(m0: seq<B>, trace0: seq<nat>, pos: Position)
      reads this, memory
      requires Valid() && |m0| == inst.memoryBlocks && pos.lane < inst.lanes && pos.slice < SYNC_POINTS
      requires pos.index <= inst.segmentLength
    {
      && Progressed(c, inst, m0, pos.pass, pos.slice, Fresh(inst, pos.pass, pos.slice)[pos.lane := pos.index],
                    memory[..])
      && trace == trace0 + SegmentTrace(inst, pos.pass, pos.slice, pos.lane, pos.index)
    }

    lemma StartFilling(m0: seq<B>, trace0: seq<nat>, position: Position, i: nat)
      requires Valid() && position.lane < inst.lanes && position.slice < SYNC_POINTS
      requires i == StartIndex(position.pass, position.slice)
      requires m0 == memory[..] && trace0 == trace
      ensures i <= inst.segmentLength && Filling(m0, trace0, position.(index := i))
    {
      var done := Fresh(inst, position.pass, position.slice);
      ProgressedStart(c, inst, m0, position.pass, position.slice, done);
      assert done[position.lane := i] == done;
    }

    /** What it means that the segment has been built so far. */
    lemma FillingIs(m0: seq<B>, trace0: seq<nat>, pos: Position)
      requires Valid() && |m0| == inst.memoryBlocks && pos.lane < inst.lanes && pos.slice < SYNC_POINTS
      requires pos.index <= inst.segmentLength && Filling(m0, trace0, pos)
      requires ReadyAfter(inst, trace0, pos.pass, pos.slice)
      ensures Progressed(c, inst, m0, pos.pass, pos.slice, Fresh(inst, pos.pass, pos.slice)[pos.lane := pos.index],
                         memory[..])
      ensures trace == trace0 + SegmentTrace(inst, pos.pass, pos.slice, pos.lane, pos.index)
      ensures Ready(pos.pass, pos.slice) && OwnReady(pos)
    {
      hide FinalBlock, Progressed, Off;
      TraceReady(inst, pos);
    }

    /** One block more than in the memory `mem`. */
    lemma FilledNext(m0: seq<B>, trace0: seq<nat>, pos: Position, mem: seq<B>, prevOffset: u32, currOffset: u32)
      requires Valid() && |m0| == |mem| == inst.memoryBlocks && pos.In(inst)
      requires Progressed(c, inst, m0, pos.pass, pos.slice, Fresh(inst, pos.pass, pos.slice)[pos.lane := pos.index],
                          mem)
      requires OffsetsAt(pos, currOffset, prevOffset) && currOffset < |mem|
      requires memory[..] == mem[currOffset := NewBlock(c, inst, mem, pos)]
      requires trace == trace0 + SegmentTrace(inst, pos.pass, pos.slice, pos.lane, pos.index) + [currOffset]
      ensures Filling(m0, trace0, pos.(index := pos.index + 1))
    {
      hide FinalBlock, NewBlock, Progressed, Partial, Off, PrevColumn;
      var done := Fresh(inst, pos.pass, pos.slice)[pos.lane := pos.index];
      ProgressedStep(c, inst, m0, done, mem, pos);
      assert done[pos.lane := pos.index + 1] == Fresh(inst, pos.pass, pos.slice)[pos.lane := pos.index + 1];
    }

    lemma FillingDone(m0: seq<B>, trace0: seq<nat>, position: Position)
      requires Valid() && |m0| == inst.memoryBlocks && position.lane < inst.lanes && position.slice < SYNC_POINTS
      requires Filling(m0, trace0, position.(index := inst.segmentLength))
      ensures SegmentFilled(c, inst, position.pass, position.slice, position.lane, m0, memory[..])
      ensures trace == trace0 + SegmentTrace(inst, position.pass, position.slice, position.lane, inst.segmentLength)
    {
    }

    /** The running offsets before a block is built; column 1 is where `prevOffset` is rotated. */
    ghost predicate OffsetsAt(pos: Position, currOffset: u32, prevOffset: u32)
      requires Valid()
    {
      && currOffset == Off(inst, pos.lane, pos.Column(inst))
      && (pos.index < inst.segmentLength && pos.Column(inst) != 1 ==>
            prevOffset == Off(inst, pos.lane, PrevColumn(inst, pos)))
    }

    /** Where the loop of `argon2_fill_segment_ref` starts. */
    method FirstOffsets(position: Position) returns (startingIndex: nat, currOffset: u32, prevOffset: u32)
      requires Valid() && position.lane < inst.lanes && position.slice < SYNC_POINTS
      ensures startingIndex == StartIndex(position.pass, position.slice)
      ensures OffsetsAt(position.(index := startingIndex), currOffset, prevOffset)
      ensures prevOffset == Off(inst, position.lane, PrevColumn(inst, position.(index := startingIndex)))
    {
      hide Off, Position.Column, PrevColumn;
      startingIndex := 0;
      if position.pass == 0 && position.slice == 0 {
        startingIndex := 2;
      }
      currOffset := Wrap32(Wrap32(Wrap32(position.lane * inst.laneLength) + Wrap32(position.slice * inst.segmentLength))
                           + startingIndex);
      ghost var first := position.(index := startingIndex);
      CurrentOffset(inst, first);
      FirstPrevious(inst, first, currOffset);
      if currOffset % inst.laneLength == 0 {
        prevOffset := Wrap32(currOffset + inst.laneLength - 1);
      } else {
        prevOffset := Wrap32(currOffset - 1);
      }
    }

    /** One iteration of the filling loop: pick the reference block and build the current one. */
    method FillBlock(position: Position, i: nat, dataIndependent: bool, currOffset: u32, prevOffset: u32)
      requires Valid() && position.(index := i).In(inst)
      requires Ready(position.pass, position.slice) && OwnReady(position.(index := i))
      requires dataIndependent == DataIndependent(inst, position)
      requires dataIndependent ==> pseudoRands[i] == c.Address(inst, position.(index := i))
      requires currOffset == Off(inst, position.lane, position.(index := i).Column(inst))
      requires prevOffset == Off(inst, position.lane, PrevColumn(inst, position.(index := i)))
      modifies memory, this`trace
      ensures currOffset < memory.Length
      ensures memory[..] == old(memory[..])[currOffset := NewBlock(c, inst, old(memory[..]), position.(index := i))]
      ensures trace == old(trace) + [currOffset]
    {
      hide FinalBlock, IndexAlpha, PrevColumn, Off, RefLane, RefColumn, Compression.Address;
      ghost var pos := position.(index := i);
      PreviousReady(pos);
      OffRange(inst, pos.lane, PrevColumn(inst, pos));
      OffRange(inst, pos.lane, pos.Column(inst));
      var prev := Load(prevOffset);
      var pseudoRand: u64;
      if dataIndependent {
        pseudoRand := pseudoRands[i];
      } else {
        pseudoRand := c.word(prev, 0);
      }
      var refOffset := ReferenceOffset(position, i, pseudoRand);
      var ref := Load(refOffset);
      if position.pass != 0 {
        CurrentReady(pos);
        var was := Load(currOffset);
        Store(currOffset, c.fillXor(prev, ref, was));
      } else {
        Store(currOffset, c.fill(prev, ref));
      }
    }

    /** Also when the segment has nothing to build (two-block segments in the first slice). */
    lemma FirstPreviousReady(pos: Position)
      requires Valid() && pos.lane < inst.lanes && pos.slice < SYNC_POINTS
      requires pos.index == StartIndex(pos.pass, pos.slice) && Ready(pos.pass, pos.slice)
      ensures PrevColumn(inst, pos) < inst.laneLength
      ensures Off(inst, pos.lane, PrevColumn(inst, pos)) in trace
    {
    }

    lemma PreviousReady(pos: Position)
      requires Valid() && pos.In(inst) && Ready(pos.pass, pos.slice) && OwnReady(pos)
      ensures PrevColumn(inst, pos) < inst.laneLength && pos.Column(inst) < inst.laneLength
      ensures Off(inst, pos.lane, PrevColumn(inst, pos)) in trace
    {
      ReadsAllowed(inst, pos, 0);
      PrevInSegment(inst, pos);
    }

    /** After the first pass every block, the current one included, has been written. */
    lemma CurrentReady(pos: Position)
      requires Valid() && pos.In(inst) && pos.pass > 0 && Ready(pos.pass, pos.slice)
      ensures Off(inst, pos.lane, pos.Column(inst)) in trace
    {
      ColumnInSlice(inst, pos);
    }

    /** Lane and column of the reference block, as an offset into the region. */
    method ReferenceOffset(position: Position, i: nat, pseudoRand: u64) returns (offset: u32)
      requires Valid() && position.(index := i).In(inst)
      requires Ready(position.pass, position.slice) && OwnReady(position.(index := i))
      ensures var pos := position.(index := i);
              offset == Off(inst, RefLane(inst, pos, pseudoRand), RefColumn(inst, pos, pseudoRand))
      ensures offset < memory.Length && offset in trace
    {
      hide IndexAlpha, Off;
      ghost var pos := position.(index := i);
      ReferenceReady(pos, pseudoRand);
      var refLane := pseudoRand / U32 % inst.lanes;
      if position.pass == 0 && position.slice == 0 {
        refLane := position.lane;
      }
      var refIndex := IndexAlpha(inst, position.(index := i), pseudoRand % U32, refLane == position.lane);
      OffIsCode(inst, refLane, refIndex);
      offset := inst.laneLength * refLane + refIndex;
    }

    lemma ReferenceReady(pos: Position, rand: u64)
      requires Valid() && pos.In(inst) && Ready(pos.pass, pos.slice) && OwnReady(pos)
      ensures var x := Off(inst, RefLane(inst, pos, rand), RefColumn(inst, pos, rand));
              x < memory.Length && x in trace
    {
      hide IndexAlpha, Off;
      ReadsAllowed(inst, pos, rand);
      OffRange(inst, RefLane(inst, pos, rand), RefColumn(inst, pos, rand));
    }

    /** `argon2_fill_memory_blocks`: one pass, slice by slice and lane by lane. */
    method FillMemoryBlocks(pass: nat)
      requires Valid() && Ready(pass, 0)
      modifies memory, pseudoRands, this`trace
      ensures memory[..] == PassResult(c, inst, old(memory[..]), pass, SYNC_POINTS)
      ensures trace == old(trace) + PassTrace(inst, pass, SYNC_POINTS)
      ensures Ready(pass + 1, 0)
    {
      hide FinalBlock, SliceResult, Progressed, ReadyAfter, SliceTrace;
      ghost var m0, trace0 := memory[..], trace;
      var s := 0;
      while s < SYNC_POINTS
        invariant 0 <= s <= SYNC_POINTS
        invariant memory[..] == PassResult(c, inst, m0, pass, s)
        invariant trace == trace0 + PassTrace(inst, pass, s)
        invariant if s < SYNC_POINTS then Ready(pass, s) else Ready(pass + 1, 0)
      {
        FillSlice(pass, s);
        s := s + 1;
      }
    }

    /** The inner loop of `argon2_fill_memory_blocks`. */
    method FillSlice(pass: nat, slice: nat)
      requires Valid() && slice < SYNC_POINTS && Ready(pass, slice)
      modifies memory, pseudoRands, this`trace
      ensures memory[..] == SliceResult(c, inst, old(memory[..]), pass, slice)
      ensures trace == old(trace) + SliceTrace(inst, pass, slice, inst.lanes)
      ensures if slice + 1 < SYNC_POINTS then Ready(pass, slice + 1) else Ready(pass + 1, 0)
    {
      hide FinalBlock, SliceResult, Progressed, SegmentFilled, ReadyAfter, LanesDone, SegmentTrace, StartIndex;
      ghost var m0, trace0 := memory[..], trace;
      ProgressedStart(c, inst, m0, pass, slice, LanesDone(inst, pass, slice, 0));
      var l := 0;
      while l < inst.lanes
        invariant 0 <= l <= inst.lanes
        invariant Progressed(c, inst, m0, pass, slice, LanesDone(inst, pass, slice, l), memory[..])
        invariant trace == trace0 + SliceTrace(inst, pass, slice, l)
        invariant Ready(pass, slice)
      {
        ghost var m1 := memory[..];
        FillSegment(Position(pass, l, slice, 0));
        NextLaneDone(c, inst, m0, pass, slice, l, m1, memory[..]);
        ReadyKept(inst, trace0, SliceTrace(inst, pass, slice, l + 1), pass, slice);
        l := l + 1;
      }
      AllLanesDone(c, inst, m0, pass, slice, memory[..]);
      ReadyNext(inst, trace0, pass, slice);
    }
  }

  lemma {:induction false} TraceHas(inst: Instance, pass: nat, slice: nat, lane: nat, n: nat, col: nat)
    requires inst.SliceBase(slice) + StartIndex(pass, slice) <= col < inst.SliceBase(slice) + n
    ensures Off(inst, lane, col) in SegmentTrace(inst, pass, slice, lane, n)
  {
    hide FinalBlock, NewBlock, Progressed, Partial;
    hide FinalBlock, IndexAlpha;
    if col < inst.SliceBase(slice) + n - 1 {
      TraceHas(inst, pass, slice, lane, n - 1, col);
    }
  }

  lemma TraceReady(inst: Instance, pos: Position)
    ensures forall col :: inst.SliceBase(pos.slice) + StartIndex(pos.pass, pos.slice) <= col < pos.Column(inst) ==>
              Off(inst, pos.lane, col) in SegmentTrace(inst, pos.pass, pos.slice, pos.lane, pos.index)
  {
    forall col | inst.SliceBase(pos.slice) + StartIndex(pos.pass, pos.slice) <= col < pos.Column(inst)
      ensures Off(inst, pos.lane, col) in SegmentTrace(inst, pos.pass, pos.slice, pos.lane, pos.index)
    {
      TraceHas(inst, pos.pass, pos.slice, pos.lane, pos.index, col);
    }
  }

  lemma ReadyKept(inst: Instance, trace: seq<nat>, more: seq<nat>, pass: nat, slice: nat)
    requires ReadyAfter(inst, trace, pass, slice)
    ensures ReadyAfter(inst, trace + more, pass, slice)
  {
  }

  /** A complete slice makes the next one ready. */
  lemma ReadyNext(inst: Instance, trace: seq<nat>, pass: nat, slice: nat)
    requires inst.Sliced() && slice < SYNC_POINTS && ReadyAfter(inst, trace, pass, slice)
    ensures var all := trace + SliceTrace(inst, pass, slice, inst.lanes);
            if slice + 1 < SYNC_POINTS then ReadyAfter(inst, all, pass, slice + 1)
            else ReadyAfter(inst, all, pass + 1, 0)
  {
    var t := SliceTrace(inst, pass, slice, inst.lanes);
    forall l, col | 0 <= l < inst.lanes && 0 <= col < inst.laneLength
      && (pass > 0 || col < ReadyColumns(inst, slice + 1) || col < 2)
      ensures Off(inst, l, col) in trace + t
    {
      SliceCount(inst, pass, slice, inst.lanes, l, col);
      SliceCovers(inst, pass, slice, col);
      if Off(inst, l, col) !in trace {
        assert Off(inst, l, col) in multiset(t);
      }
    }
  }
}
