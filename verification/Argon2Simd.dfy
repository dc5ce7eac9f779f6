/**
 The SSSE3 and AVX2 block fillers: registers hold the previous block, are folded with
 the reference block and end up holding the new block, which is also stored. Both
 compute the compression of the scalar filler.
 */
module Argon2Simd {
  import opened BlaMka
  import opened Argon2Block
  import opened Machine

  // -------------------------------------------------------------- SSSE3

  /** Register `k` of a block. */
  function RegOf(v: Block, k: nat): Reg
    requires k < 64
  {
    Reg(v[2 * k], v[2 * k + 1])
  }

  /** The registers hold the block `v`. */
  ghost predicate Holds(state: seq<Reg>, v: Block) {
    |state| == 64 && forall k :: 0 <= k < 64 ==> state[k] == RegOf(v, k)
  }

  /** The block stored from the registers. */
  function Stored(state: seq<Reg>): Block
    requires |state| == 64
  {
    Tabulate((j: nat) requires j < 128 => if j % 2 == 0 then state[j / 2].lo else state[j / 2].hi)
  }

  lemma StoredIs(state: seq<Reg>, v: Block)
    requires Holds(state, v)
    ensures Stored(state) == v
  {
    forall j | 0 <= j < 128 ensures Stored(state)[j] == v[j] {
      assert state[j / 2] == RegOf(v, j / 2);
    }
  }

  lemma XorRegs(v: Block, w: Block, k: nat)
    requires k < 64
    ensures Xor128(RegOf(v, k), RegOf(w, k)) == RegOf(XorBlock(v, w), k)
  {
    hide Xor;
  }

  /** Eight registers holding sixteen words. */
  function RegsOf(w: seq<Word>): Regs
    requires |w| == 16
  {
    Regs(Reg(w[0], w[1]), Reg(w[2], w[3]), Reg(w[4], w[5]), Reg(w[6], w[7]),
         Reg(w[8], w[9]), Reg(w[10], w[11]), Reg(w[12], w[13]), Reg(w[14], w[15]))
  }

  function Nth(r: Regs, k: nat): Reg
    requires k < 8
  {
    match k
    case 0 => r.a0 case 1 => r.a1 case 2 => r.b0 case 3 => r.b1
    case 4 => r.c0 case 5 => r.c1 case 6 => r.d0 case _ => r.d1
  }

  lemma NthRegsOf(w: seq<Word>, k: nat)
    requires |w| == 16 && k < 8
    ensures Nth(RegsOf(w), k) == Reg(w[2 * k], w[2 * k + 1])
  {
    match k
    case 0 => case 1 => case 2 => case 3 => case 4 => case 5 => case 6 => case 7 =>
  }

  lemma RegsFromNth(r: Regs, w: seq<Word>)
    requires |w| == 16
    requires forall k :: 0 <= k < 8 ==> Nth(r, k) == Reg(w[2 * k], w[2 * k + 1])
    ensures r == RegsOf(w)
  {
    assert Nth(r, 0) == r.a0 && Nth(r, 1) == r.a1 && Nth(r, 2) == r.b0 && Nth(r, 3) == r.b1;
    assert Nth(r, 4) == r.c0 && Nth(r, 5) == r.c1 && Nth(r, 6) == r.d0 && Nth(r, 7) == r.d1;
  }

  function MatrixRegs(m: Matrix): Regs {
    Regs(FirstTwo(m.a), LastTwo(m.a), FirstTwo(m.b), LastTwo(m.b),
         FirstTwo(m.c), LastTwo(m.c), FirstTwo(m.d), LastTwo(m.d))
  }

  function FirstTwo(x: Row): Reg { Reg(x.w0, x.w1) }
  function LastTwo(x: Row): Reg { Reg(x.w2, x.w3) }

  lemma RegsOfMatrix(w: seq<Word>)
    requires |w| == 16
    ensures RegsOf(w) == MatrixRegs(MatrixOf(w))
  {
  }

  lemma MatrixRegsWords(r: Regs)
    ensures MatrixRegs(Words(r)) == r
  {
  }

  lemma WordsMatrixRegs(m: Matrix)
    ensures Words(MatrixRegs(m)) == m
  {
  }

  /** The vector round on registers is P on the words they hold. */
  lemma RoundIsP(w: seq<Word>)
    requires |w| == 16
    ensures RoundSsse3(RegsOf(w)) == RegsOf(P(w))
  {
    hide RoundSsse3, Round, Words, RegsOf, MatrixRegs;
    RegsOfMatrix(w);
    WordsMatrixRegs(MatrixOf(w));
    Ssse3IsScalar(RegsOf(w));
    MatrixRegsWords(RoundSsse3(RegsOf(w)));
    RegsOfMatrix(P(w));
  }

  /** Register numbers used by the two loops: eight in sequence, and every eighth. */
  function RowReg(i: nat, k: nat): (j: nat)
    requires i < 8 && k < 8
    ensures j < 64
  {
    8 * i + k
  }

  function ColumnReg(i: nat, k: nat): (j: nat)
    requires i < 8 && k < 8
    ensures j < 64
  {
    8 * k + i
  }

  function Gather(s: seq<Reg>, byRow: bool, i: nat): Regs
    requires |s| == 64 && i < 8
  {
    if byRow then
      Regs(s[RowReg(i, 0)], s[RowReg(i, 1)], s[RowReg(i, 2)], s[RowReg(i, 3)],
           s[RowReg(i, 4)], s[RowReg(i, 5)], s[RowReg(i, 6)], s[RowReg(i, 7)])
    else
      Regs(s[ColumnReg(i, 0)], s[ColumnReg(i, 1)], s[ColumnReg(i, 2)], s[ColumnReg(i, 3)],
           s[ColumnReg(i, 4)], s[ColumnReg(i, 5)], s[ColumnReg(i, 6)], s[ColumnReg(i, 7)])
  }

  function RegNumber(byRow: bool, i: nat, k: nat): (j: nat)
    requires i < 8 && k < 8
    ensures j < 64
  {
    if byRow then RowReg(i, k) else ColumnReg(i, k)
  }

  /** Which loop iteration a register belongs to, and its place there. */
  function Iteration(byRow: bool, j: nat): (i: nat)
    requires j < 64
    ensures i < 8
  {
    if byRow then j / 8 else j % 8
  }

  function Place(byRow: bool, j: nat): (k: nat)
    requires j < 64
    ensures k < 8
  {
    if byRow then j % 8 else j / 8
  }

  lemma Placed(byRow: bool, i: nat, k: nat)
    requires i < 8 && k < 8
    ensures Iteration(byRow, RegNumber(byRow, i, k)) == i && Place(byRow, RegNumber(byRow, i, k)) == k
  {
  }

  lemma PlacedOnto(byRow: bool, j: nat)
    requires j < 64
    ensures RegNumber(byRow, Iteration(byRow, j), Place(byRow, j)) == j
  {
  }

  lemma NthGather(s: seq<Reg>, byRow: bool, i: nat, k: nat)
    requires |s| == 64 && i < 8 && k < 8
    ensures Nth(Gather(s, byRow, i), k) == s[RegNumber(byRow, i, k)]
  {
    hide RowReg, ColumnReg;
  }

  /** The sixteen words of an iteration, and the block after all iterations. */
  function Words16(v: Block, byRow: bool, i: nat): (w: seq<Word>)
    requires i < 8
    ensures |w| == 16
  {
    if byRow then RowOf(v, i) else ColumnOf(v, i)
  }

  function Permuted(v: Block, byRow: bool): Block {
    if byRow then PRows(v) else PColumns(v)
  }

  lemma WordPairs(v: Block, byRow: bool, i: nat, k: nat)
    requires i < 8 && k < 8
    ensures RegOf(v, RegNumber(byRow, i, k)) == Reg(Words16(v, byRow, i)[2 * k], Words16(v, byRow, i)[2 * k + 1])
  {
  }

  lemma ColumnPair(i: nat, k: nat)
    requires i < 8 && k < 8
    ensures ColumnIndex(i, 2 * k) == 2 * ColumnReg(i, k) && ColumnIndex(i, 2 * k + 1) == 2 * ColumnReg(i, k) + 1
  {
    DivModUnique(k, 0, 2);
    DivModUnique(k, 1, 2);
  }

  lemma PermutedPairs(v: Block, byRow: bool, i: nat, k: nat)
    requires i < 8 && k < 8
    ensures RegOf(Permuted(v, byRow), RegNumber(byRow, i, k))
            == Reg(P(Words16(v, byRow, i))[2 * k], P(Words16(v, byRow, i))[2 * k + 1])
  {
    hide P, PRows, PColumns, RowOf, ColumnOf, ColumnIndex, ColumnReg;
    if byRow {
      PRowAt(v, i, 2 * k);
      PRowAt(v, i, 2 * k + 1);
    } else {
      PColumnAt(v, i, 2 * k);
      PColumnAt(v, i, 2 * k + 1);
      ColumnPair(i, k);
    }
  }

  lemma RowPlaces(i: nat, k: nat)
    requires i < 8 && k < 16
    ensures InRow(16 * i + k) == i && RowPlace(16 * i + k) == k
  {
  }

  /** One vector round: the registers of iteration `i` go from the block to the permuted block. */
  lemma VectorRound(s: seq<Reg>, v: Block, byRow: bool, i: nat, k: nat)
    requires |s| == 64 && i < 8 && k < 8
    requires forall j :: 0 <= j < 64 && Iteration(byRow, j) == i ==> s[j] == RegOf(v, j)
    ensures Nth(RoundSsse3(Gather(s, byRow, i)), k) == RegOf(Permuted(v, byRow), RegNumber(byRow, i, k))
  {
    hide RoundSsse3, RegsOf, Nth, Gather, P, Permuted, Words16, RegOf, RegNumber, Iteration, Place;
    var w := Words16(v, byRow, i);
    forall k' | 0 <= k' < 8 ensures Nth(Gather(s, byRow, i), k') == Reg(w[2 * k'], w[2 * k' + 1]) {
      NthGather(s, byRow, i, k');
      Placed(byRow, i, k');
      WordPairs(v, byRow, i, k');
    }
    RegsFromNth(Gather(s, byRow, i), w);
    RoundIsP(w);
    NthRegsOf(P(w), k);
    PermutedPairs(v, byRow, i, k);
  }

  /** The body of a loop of rounds: load eight registers, one round, store them back. */
  method RoundOn(state: array<Reg>, byRow: bool, i: nat, ghost v: Block)
    requires state.Length == 64 && i < 8
    requires forall j :: 0 <= j < 64 && Iteration(byRow, j) == i ==> state[j] == RegOf(v, j)
    modifies state
    ensures forall j :: 0 <= j < 64 ==>
              state[j] == if Iteration(byRow, j) == i then RegOf(Permuted(v, byRow), j) else old(state[j])
  {
    hide RoundSsse3, Nth, Gather, Permuted, RegOf, RegNumber, Iteration, Place;
    ghost var s := state[..];
    var r := RoundSsse3(Gather(state[..], byRow, i));
    var k := 0;
    while k < 8
      invariant 0 <= k <= 8
      invariant forall j :: 0 <= j < 64 ==>
                  state[j] == if Iteration(byRow, j) == i && Place(byRow, j) < k then RegOf(Permuted(v, byRow), j)
                              else s[j]
    {
      VectorRound(s, v, byRow, i, k);
      Placed(byRow, i, k);
      forall j | 0 <= j < 64 && Iteration(byRow, j) == i && Place(byRow, j) == k ensures j == RegNumber(byRow, i, k) {
        PlacedOnto(byRow, j);
      }
      state[RegNumber(byRow, i, k)] := Nth(r, k);
      k := k + 1;
    }
  }

  /** The two loops of rounds over `state`. */
  method PermuteState(state: array<Reg>, ghost v: Block)
    requires state.Length == 64 && Holds(state[..], v)
    modifies state
    ensures Holds(state[..], PColumns(PRows(v)))
  {
    hide RegOf, PRows, PColumns, Iteration;
    for i := 0 to 8
      invariant forall k :: 0 <= k < 64 ==> state[k] == RegOf(if Iteration(true, k) < i then PRows(v) else v, k)
    {
      RoundOn(state, true, i, v);
    }
    ghost var w := PRows(v);
    for i := 0 to 8
      invariant forall k :: 0 <= k < 64 ==> state[k] == RegOf(if Iteration(false, k) < i then PColumns(w) else w, k)
    {
      RoundOn(state, false, i, w);
    }
  }

  /** A loop of exclusive-ors between the registers and a block in memory. */
  method XorIn(state: array<Reg>, block: Block, ghost v: Block)
    requires state.Length == 64 && Holds(state[..], v)
    modifies state
    ensures Holds(state[..], XorBlock(v, block))
  {
    hide Xor128, RegOf, XorBlock;
    for i := 0 to 64
      invariant forall k :: 0 <= k < 64 ==> state[k] == RegOf(if k < i then XorBlock(v, block) else v, k)
    {
      XorRegs(v, block, i);
      state[i] := Xor128(state[i], RegOf(block, i));
    }
  }

  /** `fill_block` of the SSSE3 filler. */
  method FillBlockSsse3(state: array<Reg>, refBlock: Block, ghost prev: Block) returns (next: Block)
    requires state.Length == 64 && Holds(state[..], prev)
    modifies state
    ensures next == Compress(prev, refBlock)
    ensures Holds(state[..], next)
  {
    hide XorBlock, Stored, PRows, PColumns, Holds;
    XorIn(state, refBlock, prev);
    ghost var z := XorBlock(prev, refBlock);
    StateLength(state[..], z);
    StoredIs(state[..], z);
    var blockXY := Stored(state[..]);
    PermuteState(state, z);
    XorIn(state, blockXY, PColumns(PRows(z)));
    XorBlockCommutes(prev, refBlock);
    StoredIs(state[..], XorBlock(PColumns(PRows(z)), z));
    next := Stored(state[..]);
  }

  lemma StateLength(state: seq<Reg>, v: Block)
    requires Holds(state, v)
    ensures |state| == 64
  {
  }

  /** `fill_block_with_xor` of the SSSE3 filler. */
  method FillBlockWithXorSsse3(state: array<Reg>, refBlock: Block, nextBlock: Block, ghost prev: Block)
      returns (next: Block)
    requires state.Length == 64 && Holds(state[..], prev)
    modifies state
    ensures next == CompressXor(prev, refBlock, nextBlock)
    ensures Holds(state[..], next)
  {
    hide XorBlock, Stored, PRows, PColumns, Holds;
    XorIn(state, refBlock, prev);
    ghost var z := XorBlock(prev, refBlock);
    StateLength(state[..], z);
    StoredIs(state[..], z);
    var blockXY := XorBlock(Stored(state[..]), nextBlock);
    PermuteState(state, z);
    ghost var p := PColumns(PRows(z));
    XorIn(state, blockXY, p);
    XorBlockCommutes(prev, refBlock);
    XorBlockRegroup(p, z, nextBlock);
    StoredIs(state[..], XorBlock(p, blockXY));
    next := Stored(state[..]);
  }

  // --------------------------------------------------------------- AVX2

  /** 256-bit register `k` of a block. */
  function WideOf(v: Block, k: nat): Row
    requires k < 32
  {
    Row(v[4 * k], v[4 * k + 1], v[4 * k + 2], v[4 * k + 3])
  }

  ghost predicate HoldsWide(state: seq<Row>, v: Block) {
    |state| == 32 && forall k :: 0 <= k < 32 ==> state[k] == WideOf(v, k)
  }

  function StoredWide(state: seq<Row>): Block
    requires |state| == 32
  {
    Tabulate((j: nat) requires j < 128 => At(state[j / 4], j % 4))
  }

  lemma StoredWideIs(state: seq<Row>, v: Block)
    requires HoldsWide(state, v)
    ensures StoredWide(state) == v
  {
    forall j | 0 <= j < 128 ensures StoredWide(state)[j] == v[j] {
      assert state[j / 4] == WideOf(v, j / 4);
      assert j == 4 * (j / 4) + j % 4;
    }
  }

  lemma XorWides(v: Block, w: Block, k: nat)
    requires k < 32
    ensures Xor256(WideOf(v, k), WideOf(w, k)) == WideOf(XorBlock(v, w), k)
  {
    hide Xor;
  }

  /**
   What macro argument `k` (A0, A1, B0, B1, C0, C1, D0, D1) holds when a round works on the
   word vectors `w0` and `w1`: round 1 keeps them in alternate registers, round 2 in the
   halves of each register.
   */
  function Argument(byRow: bool, w0: seq<Word>, w1: seq<Word>, k: nat): Row
    requires |w0| == |w1| == 16 && k < 8
  {
    if byRow then
      var w := if k % 2 == 0 then w0 else w1;
      Row(w[4 * (k / 2)], w[4 * (k / 2) + 1], w[4 * (k / 2) + 2], w[4 * (k / 2) + 3])
    else Row(w0[2 * k], w0[2 * k + 1], w1[2 * k], w1[2 * k + 1])
  }

  function Arguments(byRow: bool, w0: seq<Word>, w1: seq<Word>): WideRegs
    requires |w0| == |w1| == 16
  {
    WideRegs(Argument(byRow, w0, w1, 0), Argument(byRow, w0, w1, 1), Argument(byRow, w0, w1, 2),
             Argument(byRow, w0, w1, 3), Argument(byRow, w0, w1, 4), Argument(byRow, w0, w1, 5),
             Argument(byRow, w0, w1, 6), Argument(byRow, w0, w1, 7))
  }

  function NthWide(r: WideRegs, k: nat): Row
    requires k < 8
  {
    match k
    case 0 => r.a0 case 1 => r.a1 case 2 => r.b0 case 3 => r.b1
    case 4 => r.c0 case 5 => r.c1 case 6 => r.d0 case _ => r.d1
  }

  lemma NthArgument(byRow: bool, w0: seq<Word>, w1: seq<Word>, k: nat)
    requires |w0| == |w1| == 16 && k < 8
    ensures NthWide(Arguments(byRow, w0, w1), k) == Argument(byRow, w0, w1, k)
  {
    hide Argument;
  }

  lemma ArgumentsFromNth(byRow: bool, r: WideRegs, w0: seq<Word>, w1: seq<Word>)
    requires |w0| == |w1| == 16
    requires forall k :: 0 <= k < 8 ==> NthWide(r, k) == Argument(byRow, w0, w1, k)
    ensures r == Arguments(byRow, w0, w1)
  {
    hide Argument;
    assert NthWide(r, 0) == r.a0 && NthWide(r, 1) == r.a1 && NthWide(r, 2) == r.b0 && NthWide(r, 3) == r.b1;
    assert NthWide(r, 4) == r.c0 && NthWide(r, 5) == r.c1 && NthWide(r, 6) == r.d0 && NthWide(r, 7) == r.d1;
  }

  function RoundAvx2(byRow: bool, r: WideRegs): WideRegs {
    if byRow then Round1Avx2(r) else Round2Avx2(r)
  }

  /** The same arguments from two matrices. */
  function MatrixArguments(byRow: bool, m0: Matrix, m1: Matrix): WideRegs {
    if byRow then WideRegs(m0.a, m1.a, m0.b, m1.b, m0.c, m1.c, m0.d, m1.d)
    else
      WideRegs(Pair(FirstTwo(m0.a), FirstTwo(m1.a)), Pair(LastTwo(m0.a), LastTwo(m1.a)),
               Pair(FirstTwo(m0.b), FirstTwo(m1.b)), Pair(LastTwo(m0.b), LastTwo(m1.b)),
               Pair(FirstTwo(m0.c), FirstTwo(m1.c)), Pair(LastTwo(m0.c), LastTwo(m1.c)),
               Pair(FirstTwo(m0.d), FirstTwo(m1.d)), Pair(LastTwo(m0.d), LastTwo(m1.d)))
  }

  lemma ArgumentsOfMatrices(byRow: bool, w0: seq<Word>, w1: seq<Word>)
    requires |w0| == |w1| == 16
    ensures Arguments(byRow, w0, w1) == MatrixArguments(byRow, MatrixOf(w0), MatrixOf(w1))
  {
  }

  lemma WideRoundIsRound(byRow: bool, m0: Matrix, m1: Matrix)
    ensures RoundAvx2(byRow, MatrixArguments(byRow, m0, m1)) == MatrixArguments(byRow, Round(m0), Round(m1))
  {
    hide Round1Avx2, Round2Avx2, Round;
    var r := MatrixArguments(byRow, m0, m1);
    var s := RoundAvx2(byRow, r);
    if byRow {
      Avx2Round1IsScalar(r);
      assert s == MatrixArguments(true, Whole0(s), Whole1(s));
    } else {
      Avx2Round2IsScalar(r);
      assert s == MatrixArguments(false, Words(LowHalf(s)), Words(HighHalf(s)));
    }
  }

  /** Two permutations P at once. */
  lemma WideRoundIsP(byRow: bool, w0: seq<Word>, w1: seq<Word>)
    requires |w0| == |w1| == 16
    ensures RoundAvx2(byRow, Arguments(byRow, w0, w1)) == Arguments(byRow, P(w0), P(w1))
  {
    hide RoundAvx2, Round, Arguments, MatrixArguments;
    ArgumentsOfMatrices(byRow, w0, w1);
    WideRoundIsRound(byRow, MatrixOf(w0), MatrixOf(w1));
    ArgumentsOfMatrices(byRow, P(w0), P(w1));
  }

  function WideNumber(byRow: bool, i: nat, k: nat): (j: nat)
    requires i < 4 && k < 8
    ensures j < 32
  {
    if byRow then 8 * i + 4 * (k % 2) + k / 2 else 4 * k + i
  }

  function WideIteration(byRow: bool, j: nat): (i: nat)
    requires j < 32
    ensures i < 4
  {
    if byRow then j / 8 else j % 4
  }

  function WidePlace(byRow: bool, j: nat): (k: nat)
    requires j < 32
    ensures k < 8
  {
    if byRow then 2 * (j % 4) + j / 4 % 2 else j / 4
  }

  lemma WidePlacedRow(i: nat, p: nat, q: nat)
    requires i < 4 && p < 2 && q < 4
    ensures WideNumber(true, i, 2 * q + p) == 8 * i + 4 * p + q
    ensures WideIteration(true, 8 * i + 4 * p + q) == i && WidePlace(true, 8 * i + 4 * p + q) == 2 * q + p
  {
    DivModUnique(q, p, 2);
    DivModUnique(i, 4 * p + q, 8);
    DivModUnique(2 * i + p, q, 4);
    DivModUnique(i, p, 2);
  }

  lemma WidePlacedColumn(i: nat, k: nat)
    requires i < 4 && k < 8
    ensures WideIteration(false, WideNumber(false, i, k)) == i && WidePlace(false, WideNumber(false, i, k)) == k
  {
    DivModUnique(k, i, 4);
  }

  lemma WidePlaced(byRow: bool, i: nat, k: nat)
    requires i < 4 && k < 8
    ensures WideIteration(byRow, WideNumber(byRow, i, k)) == i && WidePlace(byRow, WideNumber(byRow, i, k)) == k
  {
    hide *;
    Halved(k);
    if byRow {
      WidePlacedRow(i, k % 2, k / 2);
    } else {
      WidePlacedColumn(i, k);
    }
  }

  lemma WidePlacedOnto(byRow: bool, j: nat)
    requires j < 32
    ensures WideNumber(byRow, WideIteration(byRow, j), WidePlace(byRow, j)) == j
  {
    if byRow {
      var p, q := j / 4 % 2, j % 4;
      assert j == 8 * (j / 8) + 4 * p + q;
      assert WidePlace(byRow, j) == 2 * q + p;
    }
  }

  /** Macro arguments of the two loops. */
  function GatherWide(s: seq<Row>, byRow: bool, i: nat): WideRegs
    requires |s| == 32 && i < 4
  {
    if byRow then
      WideRegs(s[8 * i + 0], s[8 * i + 4], s[8 * i + 1], s[8 * i + 5],
               s[8 * i + 2], s[8 * i + 6], s[8 * i + 3], s[8 * i + 7])
    else
      WideRegs(s[0 + i], s[4 + i], s[8 + i], s[12 + i], s[16 + i], s[20 + i], s[24 + i], s[28 + i])
  }

  lemma NthGatherWide(s: seq<Row>, byRow: bool, i: nat, k: nat)
    requires |s| == 32 && i < 4 && k < 8
    ensures NthWide(GatherWide(s, byRow, i), k) == s[WideNumber(byRow, i, k)]
  {
    match k
    case 0 => case 1 => case 2 => case 3 => case 4 => case 5 => case 6 => case 7 =>
  }

  lemma WideRowArgument(w0: seq<Word>, w1: seq<Word>, p: nat, q: nat)
    requires |w0| == |w1| == 16 && p < 2 && q < 4
    ensures var w := if p == 0 then w0 else w1;
            Argument(true, w0, w1, 2 * q + p) == Row(w[4 * q], w[4 * q + 1], w[4 * q + 2], w[4 * q + 3])
  {
    DivModUnique(q, p, 2);
  }

  lemma WideRowNumber(i: nat, p: nat, q: nat)
    requires i < 4 && p < 2 && q < 4
    ensures WideNumber(true, i, 2 * q + p) == 8 * i + 4 * p + q
  {
    DivModUnique(q, p, 2);
  }

  lemma WideRowPair(v: Block, i: nat, p: nat, q: nat)
    requires i < 4 && p < 2 && q < 4
    ensures WideOf(v, WideNumber(true, i, 2 * q + p))
            == Argument(true, Words16(v, true, 2 * i), Words16(v, true, 2 * i + 1), 2 * q + p)
  {
    hide WideOf, RowOf, WideNumber, Argument;
    WideInRow(v, i, p, q);
    WideRowNumber(i, p, q);
    WideRowArgument(RowOf(v, 2 * i), RowOf(v, 2 * i + 1), p, q);
  }

  lemma WideColumnPair(v: Block, i: nat, k: nat)
    requires i < 4 && k < 8
    ensures WideOf(v, WideNumber(false, i, k))
            == Argument(false, Words16(v, false, 2 * i), Words16(v, false, 2 * i + 1), k)
  {
    hide WideOf, ColumnOf;
    WideInColumn(v, i, k);
  }

  lemma Halved(k: nat)
    requires k < 8
    ensures 2 * (k / 2) + k % 2 == k && k % 2 < 2 && k / 2 < 4
  {
  }

  lemma WidePairs(v: Block, byRow: bool, i: nat, k: nat)
    requires i < 4 && k < 8
    ensures WideOf(v, WideNumber(byRow, i, k))
            == Argument(byRow, Words16(v, byRow, 2 * i), Words16(v, byRow, 2 * i + 1), k)
  {
    hide *;
    Halved(k);
    if byRow {
      WideRowPair(v, i, k % 2, k / 2);
    } else {
      WideColumnPair(v, i, k);
    }
  }

  lemma WideInRow(v: Block, i: nat, p: nat, q: nat)
    requires i < 4 && p < 2 && q < 4
    ensures var w := RowOf(v, 2 * i + p);
            WideOf(v, 8 * i + 4 * p + q) == Row(w[4 * q], w[4 * q + 1], w[4 * q + 2], w[4 * q + 3])
  {
  }

  lemma WideInColumn(v: Block, i: nat, k: nat)
    requires i < 4 && k < 8
    ensures var w0, w1 := ColumnOf(v, 2 * i), ColumnOf(v, 2 * i + 1);
            WideOf(v, 4 * k + i) == Row(w0[2 * k], w0[2 * k + 1], w1[2 * k], w1[2 * k + 1])
  {
    assert ColumnIndex(2 * i, 2 * k) == 16 * k + 4 * i && ColumnIndex(2 * i, 2 * k + 1) == 16 * k + 4 * i + 1;
    assert ColumnIndex(2 * i + 1, 2 * k) == 16 * k + 4 * i + 2
        && ColumnIndex(2 * i + 1, 2 * k + 1) == 16 * k + 4 * i + 3;
  }

  lemma WidePermuted(v: Block, byRow: bool, i: nat, k: nat)
    requires i < 4 && k < 8
    ensures WideOf(Permuted(v, byRow), WideNumber(byRow, i, k))
            == Argument(byRow, P(Words16(v, byRow, 2 * i)), P(Words16(v, byRow, 2 * i + 1)), k)
  {
    hide P, Permuted, Words16;
    var u := Permuted(v, byRow);
    WidePairs(u, byRow, i, k);
    WordsPermuted(v, byRow, 2 * i);
    WordsPermuted(v, byRow, 2 * i + 1);
  }

  /** The row or column of the permuted block is P of the row or column. */
  lemma WordsPermuted(v: Block, byRow: bool, i: nat)
    requires i < 8
    ensures Words16(Permuted(v, byRow), byRow, i) == P(Words16(v, byRow, i))
  {
    hide P, PRows, PColumns, ColumnIndex;
    forall k | 0 <= k < 16 ensures Words16(Permuted(v, byRow), byRow, i)[k] == P(Words16(v, byRow, i))[k] {
      if byRow {
        PRowAt(v, i, k);
      } else {
        PColumnAt(v, i, k);
      }
    }
  }

  lemma WideRound(s: seq<Row>, v: Block, byRow: bool, i: nat, k: nat)
    requires |s| == 32 && i < 4 && k < 8
    requires forall j :: 0 <= j < 32 && WideIteration(byRow, j) == i ==> s[j] == WideOf(v, j)
    ensures NthWide(RoundAvx2(byRow, GatherWide(s, byRow, i)), k) == WideOf(Permuted(v, byRow), WideNumber(byRow, i, k))
  {
    hide RoundAvx2, Arguments, Argument, NthWide, GatherWide, P, Permuted, Words16, WideOf, WideNumber,
         WideIteration, WidePlace;
    var w0, w1 := Words16(v, byRow, 2 * i), Words16(v, byRow, 2 * i + 1);
    forall k' | 0 <= k' < 8 ensures NthWide(GatherWide(s, byRow, i), k') == Argument(byRow, w0, w1, k') {
      NthGatherWide(s, byRow, i, k');
      WidePlaced(byRow, i, k');
      WidePairs(v, byRow, i, k');
    }
    ArgumentsFromNth(byRow, GatherWide(s, byRow, i), w0, w1);
    WideRoundIsP(byRow, w0, w1);
    NthArgument(byRow, P(w0), P(w1), k);
    WidePermuted(v, byRow, i, k);
  }

  method RoundOnWide(state: array<Row>, byRow: bool, i: nat, ghost v: Block)
    requires state.Length == 32 && i < 4
    requires forall j :: 0 <= j < 32 && WideIteration(byRow, j) == i ==> state[j] == WideOf(v, j)
    modifies state
    ensures forall j :: 0 <= j < 32 ==>
              state[j] == if WideIteration(byRow, j) == i then WideOf(Permuted(v, byRow), j) else old(state[j])
  {
    hide RoundAvx2, NthWide, GatherWide, Permuted, WideOf, WideNumber, WideIteration, WidePlace;
    ghost var s := state[..];
    var r := RoundAvx2(byRow, GatherWide(state[..], byRow, i));
    var k := 0;
    while k < 8
      invariant 0 <= k <= 8
      invariant forall j :: 0 <= j < 32 ==>
                  state[j] == if WideIteration(byRow, j) == i && WidePlace(byRow, j) < k
                              then WideOf(Permuted(v, byRow), j) else s[j]
    {
      WideRound(s, v, byRow, i, k);
      WidePlaced(byRow, i, k);
      forall j | 0 <= j < 32 && WideIteration(byRow, j) == i && WidePlace(byRow, j) == k
        ensures j == WideNumber(byRow, i, k)
      {
        WidePlacedOnto(byRow, j);
      }
      state[WideNumber(byRow, i, k)] := NthWide(r, k);
      k := k + 1;
    }
  }

  method PermuteWide(state: array<Row>, ghost v: Block)
    requires state.Length == 32 && HoldsWide(state[..], v)
    modifies state
    ensures HoldsWide(state[..], PColumns(PRows(v)))
  {
    hide WideOf, PRows, PColumns, WideIteration;
    for i := 0 to 4
      invariant forall k :: 0 <= k < 32 ==> state[k] == WideOf(if WideIteration(true, k) < i then PRows(v) else v, k)
    {
      RoundOnWide(state, true, i, v);
    }
    ghost var w := PRows(v);
    for i := 0 to 4
      invariant forall k :: 0 <= k < 32 ==>
                  state[k] == WideOf(if WideIteration(false, k) < i then PColumns(w) else w, k)
    {
      RoundOnWide(state, false, i, w);
    }
  }

  method XorInWide(state: array<Row>, block: Block, ghost v: Block)
    requires state.Length == 32 && HoldsWide(state[..], v)
    modifies state
    ensures HoldsWide(state[..], XorBlock(v, block))
  {
    hide Xor256, WideOf, XorBlock;
    for i := 0 to 32
      invariant forall k :: 0 <= k < 32 ==> state[k] == WideOf(if k < i then XorBlock(v, block) else v, k)
    {
      XorWides(v, block, i);
      state[i] := Xor256(state[i], WideOf(block, i));
    }
  }

  lemma WideStateLength(state: seq<Row>, v: Block)
    requires HoldsWide(state, v)
    ensures |state| == 32
  {
  }

  /** `fill_block` of the AVX2 filler. */
  method FillBlockAvx2(state: array<Row>, refBlock: Block, ghost prev: Block) returns (next: Block)
    requires state.Length == 32 && HoldsWide(state[..], prev)
    modifies state
    ensures next == Compress(prev, refBlock)
    ensures HoldsWide(state[..], next)
  {
    hide XorBlock, StoredWide, PRows, PColumns, HoldsWide;
    XorInWide(state, refBlock, prev);
    ghost var z := XorBlock(prev, refBlock);
    WideStateLength(state[..], z);
    StoredWideIs(state[..], z);
    var blockXY := StoredWide(state[..]);
    PermuteWide(state, z);
    XorInWide(state, blockXY, PColumns(PRows(z)));
    XorBlockCommutes(prev, refBlock);
    StoredWideIs(state[..], XorBlock(PColumns(PRows(z)), z));
    next := StoredWide(state[..]);
  }

  /** `fill_block_with_xor` of the AVX2 filler. */
  method FillBlockWithXorAvx2(state: array<Row>, refBlock: Block, nextBlock: Block, ghost prev: Block)
      returns (next: Block)
    requires state.Length == 32 && HoldsWide(state[..], prev)
    modifies state
    ensures next == CompressXor(prev, refBlock, nextBlock)
    ensures HoldsWide(state[..], next)
  {
    hide XorBlock, StoredWide, PRows, PColumns, HoldsWide;
    XorInWide(state, refBlock, prev);
    ghost var z := XorBlock(prev, refBlock);
    WideStateLength(state[..], z);
    StoredWideIs(state[..], z);
    var blockXY := XorBlock(StoredWide(state[..]), nextBlock);
    PermuteWide(state, z);
    ghost var p := PColumns(PRows(z));
    XorInWide(state, blockXY, p);
    XorBlockCommutes(prev, refBlock);
    XorBlockRegroup(p, z, nextBlock);
    StoredWideIs(state[..], XorBlock(p, blockXY));
    next := StoredWide(state[..]);
  }
}
