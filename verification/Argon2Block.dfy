/**
 The block compression of Argon2: section 3.5 of RFC 9106 as a function on 128 words,
 and the scalar, SSSE3 and AVX2 block fillers proved against it.
 */
module Argon2Block {
  import opened BlaMka
  import opened Machine

  type Block = v: seq<Word> | |v| == 128 witness seq(128, _ => 0)

  const ZERO_BLOCK: Block := seq(128, _ => 0)

  function XorBlock(x: Block, y: Block): (r: Block)
    ensures forall i :: 0 <= i < 128 ==> r[i] == Xor(x[i], y[i])
  {
    seq(128, i requires 0 <= i < 128 => Xor(x[i], y[i]))
  }

  // ------------------------------------------------------ the permutation

  function MatrixOf(v: seq<Word>): Matrix
    requires |v| == 16
  {
    Matrix(Row(v[0], v[1], v[2], v[3]), Row(v[4], v[5], v[6], v[7]),
           Row(v[8], v[9], v[10], v[11]), Row(v[12], v[13], v[14], v[15]))
  }

  function WordsOf(m: Matrix): (v: seq<Word>)
    ensures |v| == 16
  {
    [m.a.w0, m.a.w1, m.a.w2, m.a.w3, m.b.w0, m.b.w1, m.b.w2, m.b.w3,
     m.c.w0, m.c.w1, m.c.w2, m.c.w3, m.d.w0, m.d.w1, m.d.w2, m.d.w3]
  }

  /** Section 3.6 of RFC 9106: the permutation P on sixteen words. */
  function P(v: seq<Word>): (r: seq<Word>)
    requires |v| == 16
    ensures |r| == 16
  {
    WordsOf(Round(MatrixOf(v)))
  }

  /** GB on four of sixteen words, in place. */
  function Stepped(g: Quad -> Quad, v: seq<Word>, i: nat, j: nat, k: nat, l: nat): (r: seq<Word>)
    requires |v| == 16 && i < 16 && j < 16 && k < 16 && l < 16
    ensures |r| == 16
  {
    var q := g(Quad(v[i], v[j], v[k], v[l]));
    v[i := q.a][j := q.b][k := q.c][l := q.d]
  }

  function Columns(g: Quad -> Quad, v: seq<Word>): (r: seq<Word>)
    requires |v| == 16
    ensures |r| == 16
  {
    Stepped(g, Stepped(g, Stepped(g, Stepped(g, v, 0, 4, 8, 12), 1, 5, 9, 13), 2, 6, 10, 14), 3, 7, 11, 15)
  }

  function Diagonals(g: Quad -> Quad, v: seq<Word>): (r: seq<Word>)
    requires |v| == 16
    ensures |r| == 16
  {
    Stepped(g, Stepped(g, Stepped(g, Stepped(g, v, 0, 5, 10, 15), 1, 6, 11, 12), 2, 7, 8, 13), 3, 4, 9, 14)
  }

  lemma SteppedAt(g: Quad -> Quad, v: seq<Word>, i: nat, j: nat, k: nat, l: nat)
    requires |v| == 16 && i < j < k < 16 && l < 16 && l != i && l != j && l != k
    ensures var q, r := g(Quad(v[i], v[j], v[k], v[l])), Stepped(g, v, i, j, k, l);
            && r[i] == q.a && r[j] == q.b && r[k] == q.c && r[l] == q.d
            && forall n :: 0 <= n < 16 && n != i && n != j && n != k && n != l ==> r[n] == v[n]
  {
  }

  lemma FirstTwoColumns(g: Quad -> Quad, v: seq<Word>)
    requires |v| == 16
    ensures var q0, q1 := g(Quad(v[0], v[4], v[8], v[12])), g(Quad(v[1], v[5], v[9], v[13]));
            var r := Stepped(g, Stepped(g, v, 0, 4, 8, 12), 1, 5, 9, 13);
            && r[0] == q0.a && r[4] == q0.b && r[8] == q0.c && r[12] == q0.d
            && r[1] == q1.a && r[5] == q1.b && r[9] == q1.c && r[13] == q1.d
            && r[2] == v[2] && r[6] == v[6] && r[10] == v[10] && r[14] == v[14]
            && r[3] == v[3] && r[7] == v[7] && r[11] == v[11] && r[15] == v[15]
  {
    hide Stepped;
    SteppedAt(g, v, 0, 4, 8, 12);
    SteppedAt(g, Stepped(g, v, 0, 4, 8, 12), 1, 5, 9, 13);
  }

  lemma ColumnsAre(g: Quad -> Quad, v: seq<Word>)
    requires |v| == 16
    ensures var q0, q1 := g(Quad(v[0], v[4], v[8], v[12])), g(Quad(v[1], v[5], v[9], v[13]));
            var q2, q3 := g(Quad(v[2], v[6], v[10], v[14])), g(Quad(v[3], v[7], v[11], v[15]));
            var r := Columns(g, v);
            && r[0] == q0.a && r[4] == q0.b && r[8] == q0.c && r[12] == q0.d
            && r[1] == q1.a && r[5] == q1.b && r[9] == q1.c && r[13] == q1.d
            && r[2] == q2.a && r[6] == q2.b && r[10] == q2.c && r[14] == q2.d
            && r[3] == q3.a && r[7] == q3.b && r[11] == q3.c && r[15] == q3.d
  {
    hide Stepped;
    var u := Stepped(g, Stepped(g, v, 0, 4, 8, 12), 1, 5, 9, 13);
    FirstTwoColumns(g, v);
    SteppedAt(g, u, 2, 6, 10, 14);
    SteppedAt(g, Stepped(g, u, 2, 6, 10, 14), 3, 7, 11, 15);
  }

  lemma FirstTwoDiagonals(g: Quad -> Quad, v: seq<Word>)
    requires |v| == 16
    ensures var q0, q1 := g(Quad(v[0], v[5], v[10], v[15])), g(Quad(v[1], v[6], v[11], v[12]));
            var r := Stepped(g, Stepped(g, v, 0, 5, 10, 15), 1, 6, 11, 12);
            && r[0] == q0.a && r[5] == q0.b && r[10] == q0.c && r[15] == q0.d
            && r[1] == q1.a && r[6] == q1.b && r[11] == q1.c && r[12] == q1.d
            && r[2] == v[2] && r[7] == v[7] && r[8] == v[8] && r[13] == v[13]
            && r[3] == v[3] && r[4] == v[4] && r[9] == v[9] && r[14] == v[14]
  {
    hide Stepped;
    SteppedAt(g, v, 0, 5, 10, 15);
    SteppedAt(g, Stepped(g, v, 0, 5, 10, 15), 1, 6, 11, 12);
  }

  lemma DiagonalsAre(g: Quad -> Quad, v: seq<Word>)
    requires |v| == 16
    ensures var q0, q1 := g(Quad(v[0], v[5], v[10], v[15])), g(Quad(v[1], v[6], v[11], v[12]));
            var q2, q3 := g(Quad(v[2], v[7], v[8], v[13])), g(Quad(v[3], v[4], v[9], v[14]));
            var r := Diagonals(g, v);
            && r[0] == q0.a && r[5] == q0.b && r[10] == q0.c && r[15] == q0.d
            && r[1] == q1.a && r[6] == q1.b && r[11] == q1.c && r[12] == q1.d
            && r[2] == q2.a && r[7] == q2.b && r[8] == q2.c && r[13] == q2.d
            && r[3] == q3.a && r[4] == q3.b && r[9] == q3.c && r[14] == q3.d
  {
    hide Stepped;
    var u := Stepped(g, Stepped(g, v, 0, 5, 10, 15), 1, 6, 11, 12);
    FirstTwoDiagonals(g, v);
    SteppedAt(g, u, 2, 7, 8, 13);
    SteppedAt(g, Stepped(g, u, 2, 7, 8, 13), 3, 4, 9, 14);
  }

  lemma WordsListed(m: Matrix, z: seq<Word>)
    requires |z| == 16 && m.a == Row(z[0], z[1], z[2], z[3]) && m.b == Row(z[4], z[5], z[6], z[7])
    requires m.c == Row(z[8], z[9], z[10], z[11]) && m.d == Row(z[12], z[13], z[14], z[15])
    ensures WordsOf(m) == z
  {
  }

  lemma AnyP(g: Quad -> Quad, v: seq<Word>)
    requires |v| == 16
    ensures WordsOf(RoundBy(g, MatrixOf(v))) == Diagonals(g, Columns(g, v))
  {
    hide Columns, Diagonals, WordsOf;
    var w := Columns(g, v);
    var z, m := Diagonals(g, w), RoundBy(g, MatrixOf(v));
    ColumnsAre(g, v);
    DiagonalsAre(g, w);
    assert m.a == Row(z[0], z[1], z[2], z[3]);
    assert m.b == Row(z[4], z[5], z[6], z[7]);
    assert m.c == Row(z[8], z[9], z[10], z[11]);
    assert m.d == Row(z[12], z[13], z[14], z[15]);
    WordsListed(m, z);
  }

  /** Section 3.6 of RFC 9106: the eight applications of GB that make up P, in place and in the order listed there. */
  lemma PIsRfc(v: seq<Word>)
    requires |v| == 16
    ensures P(v) == Diagonals(G, Columns(G, v))
  {
    hide RoundBy, Columns, Diagonals, WordsOf, MatrixOf;
    AnyP(G, v);
  }

  /** Sixteen consecutive words. */
  function RowOf(v: Block, i: nat): (r: seq<Word>)
    requires i < 8
    ensures |r| == 16
  {
    v[16 * i .. 16 * i + 16]
  }

  /** Word number of entry `k` of column `i`, a column being eight pairs of words. */
  function ColumnIndex(i: nat, k: nat): (j: nat)
    requires i < 8 && k < 16
    ensures j < 128
  {
    2 * i + 16 * (k / 2) + k % 2
  }

  /** Column and place of a word, and row and place. */
  function InColumn(j: nat): (i: nat)
    requires j < 128
    ensures i < 8
  {
    j % 16 / 2
  }

  function ColumnPlace(j: nat): (k: nat)
    requires j < 128
    ensures k < 16
  {
    2 * (j / 16) + j % 2
  }

  function InRow(j: nat): (i: nat)
    requires j < 128
    ensures i < 8
  {
    j / 16
  }

  function RowPlace(j: nat): (k: nat)
    ensures k < 16
  {
    j % 16
  }

  lemma ColumnPlaces(i: nat, k: nat)
    requires i < 8 && k < 16
    ensures InColumn(ColumnIndex(i, k)) == i && ColumnPlace(ColumnIndex(i, k)) == k
  {
    var p, q := k / 2, k % 2;
    var j := ColumnIndex(i, k);
    assert j == p * 16 + (2 * i + q);
    DivModUnique(p, 2 * i + q, 16);
    DivModUnique(i, q, 2);
    DivModUnique(8 * p + i, q, 2);
  }

  lemma ColumnOnto(j: nat)
    requires j < 128
    ensures ColumnIndex(InColumn(j), ColumnPlace(j)) == j
  {
  }

  function ColumnOf(v: Block, i: nat): (r: seq<Word>)
    requires i < 8
    ensures |r| == 16
  {
    seq(16, k requires 0 <= k < 16 => v[ColumnIndex(i, k)])
  }

  /** Section 3.5 of RFC 9106: row i is eight pairs of words in a row, column i is the i-th pair of every row. */
  lemma RowsAndColumns(v: Block, i: nat)
    requires i < 8
    ensures RowOf(v, i) == v[16 * i..16 * i + 16]
    ensures ColumnOf(v, i) ==
            [v[2 * i], v[2 * i + 1], v[2 * i + 16], v[2 * i + 17], v[2 * i + 32], v[2 * i + 33],
             v[2 * i + 48], v[2 * i + 49], v[2 * i + 64], v[2 * i + 65], v[2 * i + 80], v[2 * i + 81],
             v[2 * i + 96], v[2 * i + 97], v[2 * i + 112], v[2 * i + 113]]
  {
  }

  function RowEntry(v: Block, j: nat): Word
    requires j < 128
  {
    P(RowOf(v, InRow(j)))[RowPlace(j)]
  }

  function ColumnEntry(v: Block, j: nat): Word
    requires j < 128
  {
    P(ColumnOf(v, InColumn(j)))[ColumnPlace(j)]
  }

  function Tabulate(f: nat --> Word): (r: Block)
    requires forall j :: 0 <= j < 128 ==> f.requires(j)
    ensures forall j :: 0 <= j < 128 ==> r[j] == f(j)
  {
    seq(128, j requires 0 <= j < 128 && f.requires(j) => f(j))
  }

  /** P applied to every row. */
  function PRows(v: Block): Block {
    Tabulate((j: nat) requires j < 128 => RowEntry(v, j))
  }

  /** P applied to every column. */
  function PColumns(v: Block): Block {
    Tabulate((j: nat) requires j < 128 => ColumnEntry(v, j))
  }

  lemma PRowsAt(v: Block)
    ensures forall j :: 0 <= j < 128 ==> PRows(v)[j] == RowEntry(v, j)
  {
    hide RowEntry;
  }

  lemma PColumnsAt(v: Block)
    ensures forall j :: 0 <= j < 128 ==> PColumns(v)[j] == ColumnEntry(v, j)
  {
    hide ColumnEntry;
  }

  lemma PRowAt(v: Block, i: nat, k: nat)
    requires i < 8 && k < 16
    ensures PRows(v)[16 * i + k] == P(RowOf(v, i))[k]
  {
    hide P, PRows, RowOf;
    PRowsAt(v);
    DivModUnique(i, k, 16);
    assert InRow(16 * i + k) == i && RowPlace(16 * i + k) == k;
  }

  lemma PColumnAt(v: Block, i: nat, k: nat)
    requires i < 8 && k < 16
    ensures PColumns(v)[ColumnIndex(i, k)] == P(ColumnOf(v, i))[k]
  {
    hide P, PColumns, ColumnOf, InColumn, ColumnPlace, ColumnIndex;
    PColumnsAt(v);
    ColumnPlaces(i, k);
  }

  /** Section 3.5 of RFC 9106: G(X, Y). */
  function Compress(prev: Block, ref: Block): Block {
    var r := XorBlock(ref, prev);
    XorBlock(PColumns(PRows(r)), r)
  }

  /** Section 3.4 of RFC 9106, version 0x13: passes after the first fold the result into the old block. */
  function CompressXor(prev: Block, ref: Block, old_: Block): Block {
    XorBlock(Compress(prev, ref), old_)
  }

  /** Section 3.5 of RFC 9106: whatever Q and Z are P on every row of R = X xor Y and then P on every column of Q, the
      compression is Z xor R. */
  lemma CompressIsRfc(x: Block, y: Block, r: Block, q: Block, z: Block)
    requires forall j :: 0 <= j < 128 ==> r[j] == Xor(x[j], y[j])
    requires forall i :: 0 <= i < 8 ==> RowOf(q, i) == P(RowOf(r, i))
    requires forall i :: 0 <= i < 8 ==> ColumnOf(z, i) == P(ColumnOf(q, i))
    ensures forall j :: 0 <= j < 128 ==> Compress(x, y)[j] == Xor(z[j], r[j])
    ensures forall j, old_: Block :: 0 <= j < 128 ==> CompressXor(x, y, old_)[j] == Xor(Xor(z[j], r[j]), old_[j])
  {
    hide P, Xor;
    SumsCommute(x, y, r);
    forall j | 0 <= j < 128 ensures q[j] == PRows(r)[j] {
      assert q[j] == RowOf(q, InRow(j))[RowPlace(j)];
    }
    assert q == PRows(r);
    forall j | 0 <= j < 128 ensures z[j] == PColumns(q)[j] {
      ColumnOnto(j);
      assert z[j] == ColumnOf(z, InColumn(j))[ColumnPlace(j)];
    }
    assert z == PColumns(q);
  }

  lemma SumsCommute(x: Block, y: Block, r: Block)
    requires forall j :: 0 <= j < 128 ==> r[j] == Xor(x[j], y[j])
    ensures r == XorBlock(y, x)
  {
    forall j | 0 <= j < 128 ensures r[j] == XorBlock(y, x)[j] {
      XorSwap(x[j], y[j]);
    }
  }

  lemma XorSwap(x: Word, y: Word)
    ensures Xor(x, y) == Xor(y, x)
  {
  }

  lemma XorRegroup(p: Word, r: Word, o: Word)
    ensures Xor(Xor(p, r), o) == Xor(Xor(r, o), p)
  {
  }

  lemma XorCommutes(p: Word, r: Word)
    ensures Xor(p, r) == Xor(r, p)
  {
  }

  lemma XorBlockRegroup(p: Block, r: Block, o: Block)
    ensures XorBlock(XorBlock(p, r), o) == XorBlock(XorBlock(r, o), p) == XorBlock(p, XorBlock(r, o))
  {
    hide Xor;
    var x, y, z := XorBlock(XorBlock(p, r), o), XorBlock(XorBlock(r, o), p), XorBlock(p, XorBlock(r, o));
    forall i | 0 <= i < 128 ensures x[i] == y[i] == z[i] {
      XorRegroup(p[i], r[i], o[i]);
      XorCommutes(p[i], XorBlock(r, o)[i]);
    }
  }

  lemma XorBlockCommutes(p: Block, r: Block)
    ensures XorBlock(p, r) == XorBlock(r, p)
  {
    hide Xor;
    forall i | 0 <= i < 128 ensures XorBlock(p, r)[i] == XorBlock(r, p)[i] {
      XorCommutes(p[i], r[i]);
    }
  }

  // ------------------------------------------------------------ scalar

  method XorInto(dst: array<Word>, src: Block)
    requires dst.Length == 128
    modifies dst
    ensures dst[..] == XorBlock(old(dst[..]), src)
  {
    hide Xor;
    ghost var d := dst[..];
    for i := 0 to 128
      invariant forall k :: 0 <= k < 128 ==> dst[k] == if k < i then Xor(d[k], src[k]) else d[k]
    {
      dst[i] := Xor(dst[i], src[i]);
    }
  }

  /** One scalar round on consecutive words of `blockR`. */
  method RoundOnRow(blockR: array<Word>, i: nat)
    requires blockR.Length == 128 && i < 8
    modifies blockR
    ensures forall j :: 0 <= j < 128 ==>
              blockR[j] == if InRow(j) == i then P(RowOf(old(blockR[..]), i))[RowPlace(j)] else old(blockR[j])
  {
    hide P;
    var row := blockR[16 * i .. 16 * i + 16];
    assert row == RowOf(blockR[..], i);
    var r := P(row);
    forall k | 0 <= k < 16 {
      blockR[16 * i + k] := r[k];
    }
    assert forall j :: 0 <= j < 128 && InRow(j) == i ==> j == 16 * i + RowPlace(j);
  }

  /** One scalar round on a column of `blockR`. */
  method RoundOnColumn(blockR: array<Word>, i: nat)
    requires blockR.Length == 128 && i < 8
    modifies blockR
    ensures forall j :: 0 <= j < 128 ==>
              blockR[j] == if InColumn(j) == i then P(ColumnOf(old(blockR[..]), i))[ColumnPlace(j)] else old(blockR[j])
  {
    hide P, ColumnIndex, InColumn, ColumnPlace;
    ghost var v := blockR[..];
    var column := seq(16, k requires 0 <= k < 16 reads blockR => blockR[ColumnIndex(i, k)]);
    assert column == ColumnOf(v, i);
    var r := P(column);
    var k := 0;
    while k < 16
      invariant 0 <= k <= 16
      invariant forall j :: 0 <= j < 128 ==>
                  blockR[j] == if InColumn(j) == i && ColumnPlace(j) < k then r[ColumnPlace(j)] else v[j]
    {
      ColumnPlaces(i, k);
      forall j | 0 <= j < 128 && InColumn(j) == i && ColumnPlace(j) == k ensures j == ColumnIndex(i, k) {
        ColumnOnto(j);
      }
      blockR[ColumnIndex(i, k)] := r[k];
      k := k + 1;
    }
  }

  /** The two loops of rounds over `blockR`. */
  method PermuteBlock(blockR: array<Word>)
    requires blockR.Length == 128
    modifies blockR
    ensures blockR[..] == PColumns(PRows(old(blockR[..])))
  {
    hide P, InColumn, ColumnPlace, InRow, RowPlace, RowOf, ColumnOf, PRows, PColumns;
    ghost var v := blockR[..];
    PRowsAt(v);
    for i := 0 to 8
      invariant forall j :: 0 <= j < 128 ==> blockR[j] == if InRow(j) < i then PRows(v)[j] else v[j]
    {
      SameRow(v, blockR[..], i);
      RoundOnRow(blockR, i);
    }
    ghost var w := blockR[..];
    assert w == PRows(v);
    PColumnsAt(w);
    for i := 0 to 8
      invariant forall j :: 0 <= j < 128 ==> blockR[j] == if InColumn(j) < i then PColumns(w)[j] else w[j]
    {
      SameColumn(w, blockR[..], i);
      RoundOnColumn(blockR, i);
    }
    assert blockR[..] == PColumns(w);
  }

  lemma SameRow(v: Block, w: Block, i: nat)
    requires i < 8 && forall j :: 0 <= j < 128 && InRow(j) == i ==> v[j] == w[j]
    ensures RowOf(v, i) == RowOf(w, i)
  {
    forall k | 0 <= k < 16 ensures RowOf(v, i)[k] == RowOf(w, i)[k] {
      assert InRow(16 * i + k) == i;
    }
  }

  lemma SameColumn(v: Block, w: Block, i: nat)
    requires i < 8 && forall j :: 0 <= j < 128 && InColumn(j) == i ==> v[j] == w[j]
    ensures ColumnOf(v, i) == ColumnOf(w, i)
  {
    hide ColumnIndex, InColumn;
    forall k | 0 <= k < 16 ensures ColumnOf(v, i)[k] == ColumnOf(w, i)[k] {
      ColumnPlaces(i, k);
    }
  }

  /** `fill_block`. */
  method FillBlock(prev: Block, ref: Block) returns (next: Block)
    ensures next == Compress(prev, ref)
  {
    hide Xor, P;
    var blockR := new Word[128](i requires 0 <= i < 128 => ref[i]);
    assert blockR[..] == ref;
    XorInto(blockR, prev);
    var tmp := blockR[..];
    PermuteBlock(blockR);
    XorBlockCommutes(tmp, blockR[..]);
    next := XorBlock(tmp, blockR[..]);
  }

  /** `fill_block_with_xor`. */
  method FillBlockWithXor(prev: Block, ref: Block, old_: Block) returns (next: Block)
    ensures next == CompressXor(prev, ref, old_)
  {
    hide Xor, P;
    var blockR := new Word[128](i requires 0 <= i < 128 => ref[i]);
    assert blockR[..] == ref;
    XorInto(blockR, prev);
    var z := blockR[..];
    var tmp := XorBlock(z, old_);
    PermuteBlock(blockR);
    XorBlockRegroup(blockR[..], z, old_);
    next := XorBlock(tmp, blockR[..]);
  }
}
