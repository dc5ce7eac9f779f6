/**
 Where Argon2 reads: the geometry of the block matrix (lanes of four slices) and
 the map from a pseudo-random word to the column of the reference block.
 */
module Argon2Index {
  import opened Machine

  const SYNC_POINTS: nat := 4

  /** The derived sizes of one Argon2 computation (`argon2_instance_t`). */
  datatype Instance = Instance(
    passes: nat, memoryBlocks: nat, segmentLength: nat, laneLength: nat, lanes: nat, hybrid: bool)
  {
    /** What the sizing code establishes; every 32-bit offset into the region is then in range. */
    predicate Valid() {
      && 1 <= lanes
      && Sliced()
      && memoryBlocks == LaneBase(lanes)
      && memoryBlocks < U32
    }

    /** A lane is four slices of at least two blocks. */
    predicate Sliced() {
      2 <= segmentLength && laneLength == SYNC_POINTS * segmentLength < U32
    }

    /** Offset of the first block of a lane, by counting lanes. */
    function LaneBase(lane: nat): nat {
      if lane == 0 then 0 else LaneBase(lane - 1) + laneLength
    }

    /** First column of a slice. */
    function SliceBase(slice: nat): nat {
      match slice
      case 0 => 0
      case 1 => segmentLength
      case 2 => 2 * segmentLength
      case _ => 3 * segmentLength
    }
  }

  /** The code multiplies; the model counts. */
  lemma {:induction false} LaneBaseIsProduct(inst: Instance, lane: nat)
    ensures inst.LaneBase(lane) == lane * inst.laneLength
  {
    if lane > 0 {
      LaneBaseIsProduct(inst, lane - 1);
    }
  }

  lemma SliceBaseIsProduct(inst: Instance, slice: nat)
    requires slice < SYNC_POINTS
    ensures inst.SliceBase(slice) == slice * inst.segmentLength
  {
    match slice
    case 0 =>
    case 1 =>
    case 2 =>
    case 3 =>
  }

  /** The block being constructed (`argon2_position_t`). */
  datatype Position = Position(pass: nat, lane: nat, slice: nat, index: nat)
  {
    predicate In(inst: Instance) {
      lane < inst.lanes && slice < SYNC_POINTS && StartIndex(pass, slice) <= index < inst.segmentLength
    }

    function Column(inst: Instance): nat { inst.SliceBase(slice) + index }
  }

  /** The first two blocks of a lane are seeded before the first pass. */
  function StartIndex(pass: nat, slice: nat): nat {
    if pass == 0 && slice == 0 then 2 else 0
  }

  /** Offset of a column of a lane in the flat memory region. */
  function Off(inst: Instance, lane: nat, col: nat): nat { inst.LaneBase(lane) + col }

  lemma {:induction false} LaneBaseStep(inst: Instance, lane: nat, lane': nat)
    requires lane < lane'
    ensures inst.LaneBase(lane) + inst.laneLength <= inst.LaneBase(lane')
    decreases lane'
  {
    if lane + 1 < lane' {
      LaneBaseStep(inst, lane, lane' - 1);
    }
  }

  /** Lane and column of an offset. */
  function {:induction false} LaneOf(inst: Instance, x: nat): (r: (nat, nat))
    requires inst.laneLength > 0
    ensures r.1 < inst.laneLength && Off(inst, r.0, r.1) == x
    decreases x
  {
    if x < inst.laneLength then (0, x)
    else var r := LaneOf(inst, x - inst.laneLength); (r.0 + 1, r.1)
  }

  lemma OffRange(inst: Instance, lane: nat, col: nat)
    requires inst.Valid() && lane < inst.lanes && col < inst.laneLength
    ensures Off(inst, lane, col) < inst.memoryBlocks
  {
    LaneBaseStep(inst, lane, inst.lanes);
  }

  lemma OffInjective(inst: Instance, lane: nat, col: nat, lane': nat, col': nat)
    requires col < inst.laneLength && col' < inst.laneLength
    requires Off(inst, lane, col) == Off(inst, lane', col')
    ensures lane == lane' && col == col'
  {
    if lane < lane' {
      LaneBaseStep(inst, lane, lane');
    } else if lane' < lane {
      LaneBaseStep(inst, lane', lane);
    }
  }

  lemma OffOnto(inst: Instance, x: nat)
    requires inst.Valid() && x < inst.memoryBlocks
    ensures var r := LaneOf(inst, x); r.0 < inst.lanes && r.1 < inst.laneLength && Off(inst, r.0, r.1) == x
  {
    var r := LaneOf(inst, x);
    if r.0 > inst.lanes {
      LaneBaseStep(inst, inst.lanes, r.0);
    }
  }

  // ---------------------------------------------------------------- the code

  /** Number of candidate reference blocks, in the 32-bit arithmetic of the code. */
  function ReferenceAreaSize(inst: Instance, pos: Position, sameLane: bool): u32 {
    if pos.pass == 0 then
      if pos.slice == 0 then Wrap32(pos.index - 1)
      else if sameLane then Wrap32(pos.slice * inst.segmentLength + pos.index - 1)
      else Wrap32(pos.slice * inst.segmentLength + if pos.index == 0 then -1 else 0)
    else if sameLane then Wrap32(inst.laneLength - inst.segmentLength + pos.index - 1)
    else Wrap32(inst.laneLength - inst.segmentLength + if pos.index == 0 then -1 else 0)
  }

  function StartPosition(inst: Instance, pos: Position): u32 {
    if pos.pass == 0 || pos.slice == SYNC_POINTS - 1 then 0
    else Wrap32((pos.slice + 1) * inst.segmentLength)
  }

  /** `index_alpha`: column of the reference block inside its lane. */
  function IndexAlpha(inst: Instance, pos: Position, pseudoRand: u32, sameLane: bool): nat
    requires inst.laneLength > 0
  {
    var area := ReferenceAreaSize(inst, pos, sameLane);
    var x := Wrap64(pseudoRand * pseudoRand) / U32;
    var relative := Wrap64(Wrap32(area - 1) - Wrap64(area * x) / U32);
    Wrap64(StartPosition(inst, pos) + relative) % inst.laneLength
  }

  /** The previous block is the cyclic predecessor in the lane. */
  function PrevColumn(inst: Instance, pos: Position): nat
    requires inst.laneLength > 0
  {
    if pos.Column(inst) == 0 then inst.laneLength - 1 else pos.Column(inst) - 1
  }

  // ------------------------------------------------------- the RFC's definition

  /** The columns of one slice, oldest first. */
  function Segment(inst: Instance, slice: nat): (s: seq<nat>)
    ensures |s| == inst.segmentLength
    ensures forall k :: 0 <= k < |s| ==> s[k] == inst.SliceBase(slice) + k
  {
    var column: nat -> nat := k => inst.SliceBase(slice) + k;
    seq(inst.segmentLength, column)
  }

  /** Columns of a lane whose segments are complete and not yet overwritten, in order of construction. */
  function Finished(inst: Instance, pass: nat, slice: nat): seq<nat>
    requires slice < SYNC_POINTS
  {
    if pass == 0 then
      match slice
      case 0 => []
      case 1 => Segment(inst, 0)
      case 2 => Segment(inst, 0) + Segment(inst, 1)
      case _ => Segment(inst, 0) + Segment(inst, 1) + Segment(inst, 2)
    else
      match slice
      case 0 => Segment(inst, 1) + Segment(inst, 2) + Segment(inst, 3)
      case 1 => Segment(inst, 2) + Segment(inst, 3) + Segment(inst, 0)
      case 2 => Segment(inst, 3) + Segment(inst, 0) + Segment(inst, 1)
      case _ => Segment(inst, 0) + Segment(inst, 1) + Segment(inst, 2)
  }

  /**
   Section 3.4.2 of RFC 9106: the set W of blocks that may be referenced, listed in
   order of construction. The own lane adds the blocks of the running segment; the
   newest block is dropped when it is the previous block or a neighbour of a
   segment's first block.
   */
  function Window(inst: Instance, pos: Position, sameLane: bool): seq<nat>
    requires pos.slice < SYNC_POINTS && pos.index <= inst.segmentLength
  {
    var all := Finished(inst, pos.pass, pos.slice)
               + if sameLane then Segment(inst, pos.slice)[..pos.index] else [];
    if (sameLane || pos.index == 0) && all != [] then all[..|all| - 1] else all
  }

  /** Section 3.4.2 of RFC 9106: position in W selected by the 32-bit word J1. */
  function Selected(size: nat, j1: u32): int {
    size - 1 - (size * (j1 * j1 / U32)) / U32
  }

  lemma SelectedInRange(size: nat, j1: u32)
    requires size > 0
    ensures j1 * j1 < U64
    ensures size * (j1 * j1 / U32) < size * U32
    ensures 0 <= Selected(size, j1) < size
  {
    MulMono(j1, U32 - 1, j1);
    MulMono(j1, U32 - 1, U32 - 1);
    var x := j1 * j1 / U32;
    StrictMul(x, U32, size);
    assert 0 <= size * x by { MulMono(0, x, size); }
  }

  /**
   Section 3.4.2 of RFC 9106 without a division: x and y are the largest numbers with
   x 2^32 <= J1^2 and y 2^32 <= |W| x, and the position is |W| - 1 - y.
   */
  lemma SelectedIsRfc(size: nat, j1: u32, x: nat, y: nat)
    requires size > 0
    requires x * U32 <= j1 * j1 < (x + 1) * U32
    requires y * U32 <= size * x < (y + 1) * U32
    ensures Selected(size, j1) == size - 1 - y
  {
    DivModUnique(x, j1 * j1 - x * U32, U32);
    DivModUnique(y, size * x - y * U32, U32);
  }

  /** Small words select the newest block, and the word with only the top bit set goes back a quarter of the window. */
  lemma SelectedExamples()
    ensures Selected(100, 0) == 99 && Selected(100, 0x8000_0000) == 74 && Selected(100, 0xFFFF_FFFF) == 0
  {
  }

  lemma StrictMul(a: nat, b: nat, c: nat)
    requires a < b && c > 0
    ensures c * a < c * b
  {
    assert c * b == c * a + c * (b - a);
    MulMono(1, b - a, c);
  }

  /** `x` columns after column 0, wrapping at most once round the lane. */
  function Wrapped(inst: Instance, x: nat): int {
    if x < inst.laneLength then x else x - inst.laneLength
  }

  function FinishedSize(inst: Instance, pos: Position): nat {
    inst.SliceBase(if pos.pass == 0 then pos.slice else SYNC_POINTS - 1)
  }

  function Start(inst: Instance, pos: Position): nat {
    if pos.pass == 0 || pos.slice == SYNC_POINTS - 1 then 0 else inst.SliceBase(pos.slice + 1)
  }

  lemma StartIsCode(inst: Instance, pos: Position)
    requires inst.Sliced() && pos.slice < SYNC_POINTS
    ensures StartPosition(inst, pos) == Start(inst, pos)
  {
    if pos.slice + 1 < SYNC_POINTS {
      SliceBaseIsProduct(inst, pos.slice + 1);
    }
  }

  /** Complete segments run cyclically from the start position and end before the running slice. */
  lemma FinishedSizeRight(inst: Instance, pos: Position)
    requires inst.Sliced() && pos.slice < SYNC_POINTS
    ensures |Finished(inst, pos.pass, pos.slice)| == FinishedSize(inst, pos)
    ensures Wrapped(inst, Start(inst, pos) + FinishedSize(inst, pos)) == inst.SliceBase(pos.slice)
    ensures Start(inst, pos) + FinishedSize(inst, pos) + inst.segmentLength <= 2 * inst.laneLength
  {
  }

  lemma FinishedAt(inst: Instance, pos: Position, k: nat)
    requires inst.Sliced() && pos.slice < SYNC_POINTS
    requires k < |Finished(inst, pos.pass, pos.slice)|
    ensures Finished(inst, pos.pass, pos.slice)[k] == Wrapped(inst, Start(inst, pos) + k)
  {
    var n := inst.segmentLength;
    var part := if k < n then 0 else if k < 2 * n then 1 else 2;
    match pos.slice
    case 0 =>
    case 1 =>
    case 2 =>
    case 3 =>
  }

  lemma WindowSize(inst: Instance, pos: Position, sameLane: bool)
    requires inst.Sliced() && pos.In(inst)
    requires pos.pass == 0 && pos.slice == 0 ==> sameLane
    ensures |Window(inst, pos, sameLane)| == ReferenceAreaSize(inst, pos, sameLane) > 0
  {
    SliceBaseIsProduct(inst, pos.slice);
    FinishedSizeRight(inst, pos);
    var n := FinishedSize(inst, pos) + (if sameLane then pos.index else 0)
             - if sameLane || pos.index == 0 then 1 else 0;
    assert |Window(inst, pos, sameLane)| == n;
    AreaSize(inst, pos, sameLane, n);
  }

  lemma AreaSize(inst: Instance, pos: Position, sameLane: bool, n: int)
    requires inst.Sliced() && pos.In(inst)
    requires pos.pass == 0 && pos.slice == 0 ==> sameLane
    requires pos.slice * inst.segmentLength == inst.SliceBase(pos.slice)
    requires n == FinishedSize(inst, pos) + (if sameLane then pos.index else 0)
             - if sameLane || pos.index == 0 then 1 else 0
    ensures ReferenceAreaSize(inst, pos, sameLane) == n > 0
  {
    assert 0 < n < U32;
  }

  /** The columns of W run cyclically from the start position. */
  lemma WindowAt(inst: Instance, pos: Position, sameLane: bool, k: nat)
    requires inst.Sliced() && pos.In(inst)
    requires k < |Window(inst, pos, sameLane)|
    ensures Start(inst, pos) + k < 2 * inst.laneLength
    ensures k < FinishedSize(inst, pos) + if sameLane then pos.index - 1 else 0
    ensures Window(inst, pos, sameLane)[k] == Wrapped(inst, Start(inst, pos) + k)
  {
    FinishedSizeRight(inst, pos);
    if k < FinishedSize(inst, pos) {
      FinishedAt(inst, pos, k);
    } else {
      assert Window(inst, pos, sameLane)[k] == Segment(inst, pos.slice)[k - FinishedSize(inst, pos)];
    }
  }

  lemma FinishedIsProduct(inst: Instance, pos: Position)
    requires inst.Sliced() && pos.slice < SYNC_POINTS
    ensures FinishedSize(inst, pos) == if pos.pass == 0 then pos.slice * inst.segmentLength else 3 * inst.segmentLength
  {
    SliceBaseIsProduct(inst, pos.slice);
  }

  /** Columns counted from the start position, and from the end of the running slice. */
  lemma StartModulo(inst: Instance, pos: Position, x: nat)
    requires inst.Sliced() && pos.slice < SYNC_POINTS && Start(inst, pos) <= x < 2 * inst.laneLength
    ensures var start := if pos.pass == 0 then 0 else (pos.slice + 1) * inst.segmentLength;
            Wrapped(inst, x) == (start + (x - Start(inst, pos))) % inst.laneLength
  {
    ModOnce(x, inst.laneLength);
    if pos.pass > 0 {
      if pos.slice + 1 < SYNC_POINTS {
        SliceBaseIsProduct(inst, pos.slice + 1);
      } else {
        ModShift(x, 1, inst.laneLength);
      }
    }
  }

  /** The set W by numbers: how many columns it has, and which one is the k-th. */
  lemma WindowIsRfc(inst: Instance, pos: Position, sameLane: bool, k: nat)
    requires inst.Sliced() && pos.In(inst)
    ensures var w := Window(inst, pos, sameLane);
            var finished := if pos.pass == 0 then pos.slice * inst.segmentLength else 3 * inst.segmentLength;
            var start := if pos.pass == 0 then 0 else (pos.slice + 1) * inst.segmentLength;
            && (pos.pass > 0 || pos.slice > 0 || sameLane ==>
                  |w| == finished + (if sameLane then pos.index else 0) - (if sameLane || pos.index == 0 then 1 else 0))
            && (k < |w| ==> w[k] == (start + k) % inst.laneLength)
  {
    hide Window, Start, FinishedSize, Wrapped;
    if pos.pass > 0 || pos.slice > 0 || sameLane {
      WindowLength(inst, pos, sameLane);
    }
    FinishedIsProduct(inst, pos);
    if k < |Window(inst, pos, sameLane)| {
      WindowAt(inst, pos, sameLane, k);
      StartModulo(inst, pos, Start(inst, pos) + k);
    }
  }

  lemma WindowLength(inst: Instance, pos: Position, sameLane: bool)
    requires inst.Sliced() && pos.In(inst)
    requires pos.pass > 0 || pos.slice > 0 || sameLane
    ensures |Window(inst, pos, sameLane)| == FinishedSize(inst, pos) + (if sameLane then pos.index else 0)
            - (if sameLane || pos.index == 0 then 1 else 0)
  {
    FinishedSizeRight(inst, pos);
  }

  /** The offset of a block, in the numbers of the code. */
  lemma OffIsProduct(inst: Instance, lane: nat, slice: nat, index: nat)
    requires slice < SYNC_POINTS
    ensures Off(inst, lane, Position(0, lane, slice, index).Column(inst))
            == lane * inst.laneLength + slice * inst.segmentLength + index
  {
    LaneBaseIsProduct(inst, lane);
    SliceBaseIsProduct(inst, slice);
  }

  /**
   The 32- and 64-bit arithmetic of `index_alpha` picks exactly the element of W
   that the RFC prescribes, for every parameter set and every pseudo-random word.
   */
  lemma IndexAlphaIsRfc(inst: Instance, pos: Position, pseudoRand: u32, sameLane: bool)
    requires inst.Sliced() && pos.In(inst)
    requires pos.pass == 0 && pos.slice == 0 ==> sameLane
    ensures var w := Window(inst, pos, sameLane);
            && 0 <= Selected(|w|, pseudoRand) < |w|
            && IndexAlpha(inst, pos, pseudoRand, sameLane) == w[Selected(|w|, pseudoRand)]
  {
    hide Window, ReferenceAreaSize, StartPosition, Start, Selected, Wrapped, Wrap32, Wrap64;
    WindowSize(inst, pos, sameLane);
    var size := |Window(inst, pos, sameLane)|;
    var k := Selected(size, pseudoRand);
    SelectedInRange(size, pseudoRand);
    WindowAt(inst, pos, sameLane, k);
    StartIsCode(inst, pos);
    RelativePosition(size, pseudoRand);
    AbsolutePosition(inst, Start(inst, pos), k);
  }

  lemma AbsolutePosition(inst: Instance, start: nat, k: nat)
    requires inst.Sliced() && start + k < 2 * inst.laneLength
    ensures Wrap64(start + k) % inst.laneLength == Wrapped(inst, start + k)
  {
    hide Instance.LaneBase;
    ModOnce(start + k, inst.laneLength);
  }

  /** No intermediate of the relative position overflows. */
  lemma RelativePosition(area: u32, pseudoRand: u32)
    requires area > 0
    ensures var x := Wrap64(pseudoRand * pseudoRand) / U32;
            Wrap64(Wrap32(area - 1) - Wrap64(area * x) / U32) == Selected(area, pseudoRand)
  {
    SelectedInRange(area, pseudoRand);
    var square := pseudoRand * pseudoRand;
    assert Wrap64(square) == square;
    var product := area * (square / U32);
    assert 0 <= product by { MulMono(0, square / U32, area); }
    ScaledDifference(area, product);
  }

  lemma ScaledDifference(area: u32, product: nat)
    requires 0 < area && product < area * U32
    ensures Wrap64(Wrap32(area - 1) - Wrap64(product) / U32) == area - 1 - product / U32
  {
  }

  predicate InSlice(inst: Instance, slice: nat, c: nat) {
    inst.SliceBase(slice) <= c < inst.SliceBase(slice) + inst.segmentLength
  }

  /**
   What W may contain. Another lane's columns lie outside the running slice; the own
   lane's columns in the running slice are strictly older than the previous block.
   In the first pass every column precedes the running block.
   */
  lemma WindowSafe(inst: Instance, pos: Position, sameLane: bool, c: nat)
    requires inst.Sliced() && pos.In(inst)
    requires c in Window(inst, pos, sameLane)
    ensures c < inst.laneLength
    ensures InSlice(inst, pos.slice, c) ==> sameLane && c + 1 < pos.Column(inst)
    ensures pos.pass == 0 ==> c < pos.Column(inst)
    ensures pos.pass == 0 && !sameLane ==> c < inst.SliceBase(pos.slice)
    ensures sameLane ==> c != PrevColumn(inst, pos)
  {
    var w := Window(inst, pos, sameLane);
    var k :| 0 <= k < |w| && w[k] == c;
    WindowAt(inst, pos, sameLane, k);
  }
}
