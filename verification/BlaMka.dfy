/**
 The BlaMka round of Argon2 on sixteen 64-bit words, and its SSSE3 and AVX2 forms on
 registers of two and four words. Both vector rounds are shown equal to the scalar one.
 */
module BlaMka {
  type Word = bv64

  const LOW32: Word := 0xFFFF_FFFF

  /** Product of the low halves: the scalar expression and one lane of `_mm_mul_epu32`. */
  function MulLow(x: Word, y: Word): Word { Times(x & LOW32, y & LOW32) }
  function Times(x: Word, y: Word): Word { x * y }

  function Xor(x: Word, y: Word): Word { x ^ y }
  function Sum(x: Word, y: Word): Word { x + y }
  function Double(x: Word): Word { 2 * x }

  function FBlaMka(x: Word, y: Word): Word { Sum(Sum(x, y), Double(MulLow(x, y))) }

  function Rotr32(x: Word): Word { (x >> 32) | (x << 32) }
  function Rotr24(x: Word): Word { (x >> 24) | (x << 40) }
  function Rotr16(x: Word): Word { (x >> 16) | (x << 48) }
  function Rotr63(x: Word): Word { (x >> 63) | (x << 1) }

  // ------------------------------------------------------------- scalar

  datatype Quad = Quad(a: Word, b: Word, c: Word, d: Word)

  /** The truncation of section 3.6 of RFC 9106: what is left of a word in 32 bits. */
  function Trunc(x: Word): bv32 { (x % 0x1_0000_0000) as bv32 }

  /** The product sees the low halves only, and is their product. */
  lemma MulLowIsRfc(x: Word, y: Word)
    ensures MulLow(x, y) == Times(Trunc(x) as Word, Trunc(y) as Word)
    ensures MulLow(x, y) == MulLow(x & LOW32, y & LOW32)
  {
    hide Times, Trunc;
    TruncIsMask(x);
    TruncIsMask(y);
    MaskTwice(x);
    MaskTwice(y);
  }

  lemma TruncIsMask(x: Word)
    ensures Trunc(x) as Word == x & LOW32
  {
  }

  lemma MaskTwice(x: Word)
    ensures x & LOW32 == x & LOW32 & LOW32
  {
  }

  /** fBlaMka: x + y + 2 trunc(x) trunc(y), modulo 2^64. */
  lemma FBlaMkaIsRfc(x: Word, y: Word)
    ensures FBlaMka(x, y) == Sum(Sum(x, y), Double(Times(Trunc(x) as Word, Trunc(y) as Word)))
  {
    hide MulLow, Trunc, Times, Sum, Double;
    MulLowIsRfc(x, y);
  }

  lemma SumIs(x: Word, y: Word)
    ensures Sum(x, y) == x + y && Double(x) == x + x && Xor(x, y) == (x | y) & !(x & y)
  {
  }

  function Turned(x: Word, n: nat): Word
    requires n < 64
  {
    x.RotateRight(n)
  }

  lemma RotationsAre(x: Word)
    ensures Rotr32(x) == Turned(x, 32) && Rotr24(x) == Turned(x, 24)
    ensures Rotr16(x) == Turned(x, 16) && Rotr63(x) == Turned(x, 63)
  {
  }

  function HalfG1(q: Quad): Quad {
    var a := FBlaMka(q.a, q.b);
    var d := Rotr32(Xor(q.d, a));
    var c := FBlaMka(q.c, d);
    Quad(a, Rotr24(Xor(q.b, c)), c, d)
  }

  function HalfG2(q: Quad): Quad {
    var a := FBlaMka(q.a, q.b);
    var d := Rotr16(Xor(q.d, a));
    var c := FBlaMka(q.c, d);
    Quad(a, Rotr63(Xor(q.b, c)), c, d)
  }

  function G(q: Quad): Quad { HalfG2(HalfG1(q)) }

  /** The eight steps of GB in section 3.6 of RFC 9106. */
  lemma GIsRfc(q: Quad, a1: Word, b1: Word, c1: Word, d1: Word, a2: Word, b2: Word, c2: Word, d2: Word)
    requires a1 == FBlaMka(q.a, q.b) && d1 == Turned(Xor(q.d, a1), 32)
    requires c1 == FBlaMka(q.c, d1) && b1 == Turned(Xor(q.b, c1), 24)
    requires a2 == FBlaMka(a1, b1) && d2 == Turned(Xor(d1, a2), 16)
    requires c2 == FBlaMka(c1, d2) && b2 == Turned(Xor(b1, c2), 63)
    ensures G(q) == Quad(a2, b2, c2, d2)
  {
    hide FBlaMka, Rotr32, Rotr24, Rotr16, Rotr63, Xor, Turned;
    RotationsAre(Xor(q.d, a1));
    RotationsAre(Xor(q.b, c1));
    RotationsAre(Xor(d1, a2));
    RotationsAre(Xor(b1, c2));
  }

  /** Values computed by hand from the RFC's definition. */
  lemma GExamples()
    ensures MulLow(0x1_0000_0000, 1) == 0 && FBlaMka(0x1_0000_0000, 1) == 0x1_0000_0001
    ensures G(Quad(1, 2, 3, 4)) ==
            Quad(0x100_0000_2d07, 0x5a0e_0206_0e2a_0606, 0x2d07_0003_0715_0003, 0x2d07_0000_0103_0000)
    ensures G(Quad(0x0123_4567_89ab_cdef, 0xfedc_ba98_7654_3210, 0xdead_beef_cafe_babe, 0x0f1e_2d3c_4b5a_6978)) ==
            Quad(0x6c09_621f_cf2f_5e11, 0x86ee_da22_9c48_3b04, 0x9dfe_38fd_e4b3_9dcc, 0x8342_ed90_12b8_bf75)
  {
  }

  /** Four words in a row; also one 256-bit register. */
  datatype Row = Row(w0: Word, w1: Word, w2: Word, w3: Word)

  /** Sixteen words as a 4x4 matrix. */
  datatype Matrix = Matrix(a: Row, b: Row, c: Row, d: Row)

  /** `BLAKE2_ROUND_NOMSG`: G on the four columns, then on the four diagonals. */
  function RoundBy(g: Quad -> Quad, m: Matrix): Matrix {
    var q0 := g(Quad(m.a.w0, m.b.w0, m.c.w0, m.d.w0));
    var q1 := g(Quad(m.a.w1, m.b.w1, m.c.w1, m.d.w1));
    var q2 := g(Quad(m.a.w2, m.b.w2, m.c.w2, m.d.w2));
    var q3 := g(Quad(m.a.w3, m.b.w3, m.c.w3, m.d.w3));
    var r0 := g(Quad(q0.a, q1.b, q2.c, q3.d));
    var r1 := g(Quad(q1.a, q2.b, q3.c, q0.d));
    var r2 := g(Quad(q2.a, q3.b, q0.c, q1.d));
    var r3 := g(Quad(q3.a, q0.b, q1.c, q2.d));
    Matrix(Row(r0.a, r1.a, r2.a, r3.a), Row(r3.b, r0.b, r1.b, r2.b),
           Row(r2.c, r3.c, r0.c, r1.c), Row(r1.d, r2.d, r3.d, r0.d))
  }

  function Round(m: Matrix): Matrix { RoundBy(G, m) }

  // ------------------------------------------------- 128-bit registers

  /** Two words, low half first. */
  datatype Reg = Reg(lo: Word, hi: Word)

  function Add64(x: Reg, y: Reg): Reg { Reg(Sum(x.lo, y.lo), Sum(x.hi, y.hi)) }
  function Xor128(x: Reg, y: Reg): Reg { Reg(Xor(x.lo, y.lo), Xor(x.hi, y.hi)) }
  function MulEpu32(x: Reg, y: Reg): Reg { Reg(MulLane(x.lo, y.lo), MulLane(x.hi, y.hi)) }

  /** A lane of `_mm_mul_epu32`: the upper halves are shifted out before the multiplication. */
  function MulLane(x: Word, y: Word): Word { Times((x << 32) >> 32, (y << 32) >> 32) }

  lemma LaneIsLow(x: Word, y: Word)
    ensures MulLane(x, y) == MulLow(x, y)
  {
    hide Times;
    ShiftedOut(x);
    ShiftedOut(y);
  }

  lemma ShiftedOut(x: Word)
    ensures (x << 32) >> 32 == x & LOW32
  {
  }

  /** `_mm_alignr_epi8(hi, lo, 8)`. */
  function Alignr8(hi: Reg, lo: Reg): Reg { Reg(lo.hi, hi.lo) }

  function Byte(x: Word, k: nat): Word
    requires k < 8
  {
    match k
    case 0 => x & 0xFF
    case 1 => (x >> 8) & 0xFF
    case 2 => (x >> 16) & 0xFF
    case 3 => (x >> 24) & 0xFF
    case 4 => (x >> 32) & 0xFF
    case 5 => (x >> 40) & 0xFF
    case 6 => (x >> 48) & 0xFF
    case _ => x >> 56
  }

  function FromBytes(b0: Word, b1: Word, b2: Word, b3: Word, b4: Word, b5: Word, b6: Word, b7: Word): Word {
    b0 | (b1 << 8) | (b2 << 16) | (b3 << 24) | (b4 << 32) | (b5 << 40) | (b6 << 48) | (b7 << 56)
  }

  function RegByte(x: Reg, k: nat): Word
    requires k < 16
  {
    if k < 8 then Byte(x.lo, k) else Byte(x.hi, k - 8)
  }

  /** `_mm_shuffle_epi8` with a mask of byte numbers below 16. */
  function ShuffleEpi8(x: Reg, mask: seq<nat>): Reg
    requires |mask| == 16 && forall i :: 0 <= i < 16 ==> mask[i] < 16
  {
    Reg(FromBytes(RegByte(x, mask[0]), RegByte(x, mask[1]), RegByte(x, mask[2]), RegByte(x, mask[3]),
                  RegByte(x, mask[4]), RegByte(x, mask[5]), RegByte(x, mask[6]), RegByte(x, mask[7])),
        FromBytes(RegByte(x, mask[8]), RegByte(x, mask[9]), RegByte(x, mask[10]), RegByte(x, mask[11]),
                  RegByte(x, mask[12]), RegByte(x, mask[13]), RegByte(x, mask[14]), RegByte(x, mask[15])))
  }

  const R16: seq<nat> := [2, 3, 4, 5, 6, 7, 0, 1, 10, 11, 12, 13, 14, 15, 8, 9]
  const R24: seq<nat> := [3, 4, 5, 6, 7, 0, 1, 2, 11, 12, 13, 14, 15, 8, 9, 10]

  /** `_mm_roti_epi64(x, -c)` for the four counts the round uses. */
  function RotVec32(x: Reg): Reg { Reg(SwapHalves(x.lo), SwapHalves(x.hi)) }
  function RotVec24(x: Reg): Reg { ShuffleEpi8(x, R24) }
  function RotVec16(x: Reg): Reg { ShuffleEpi8(x, R16) }
  function RotVec63(x: Reg): Reg { Reg(ShiftXorDouble(x.lo), ShiftXorDouble(x.hi)) }

  /** One lane of `_mm_shuffle_epi32(x, _MM_SHUFFLE(2, 3, 0, 1))`. */
  function SwapHalves(x: Word): Word { (x >> 32) | ((x & LOW32) << 32) }

  /** One lane of the shift, addition and exclusive-or that stand for a rotation by 63. */
  function ShiftXorDouble(x: Word): Word { (x >> 63) ^ (x + x) }

  lemma Rot16Bytes(x: Word)
    ensures FromBytes(Byte(x, 2), Byte(x, 3), Byte(x, 4), Byte(x, 5), Byte(x, 6), Byte(x, 7), Byte(x, 0), Byte(x, 1))
        == Rotr16(x)
  {
  }

  lemma Rot24Bytes(x: Word)
    ensures FromBytes(Byte(x, 3), Byte(x, 4), Byte(x, 5), Byte(x, 6), Byte(x, 7), Byte(x, 0), Byte(x, 1), Byte(x, 2))
        == Rotr24(x)
  {
  }

  lemma Rot32Halves(x: Word)
    ensures SwapHalves(x) == Rotr32(x)
  {
  }

  lemma Rot63Doubled(x: Word)
    ensures ShiftXorDouble(x) == Rotr63(x)
  {
  }

  lemma VectorRotations(x: Reg)
    ensures RotVec32(x) == Reg(Rotr32(x.lo), Rotr32(x.hi))
    ensures RotVec24(x) == Reg(Rotr24(x.lo), Rotr24(x.hi))
    ensures RotVec16(x) == Reg(Rotr16(x.lo), Rotr16(x.hi))
    ensures RotVec63(x) == Reg(Rotr63(x.lo), Rotr63(x.hi))
  {
    hide Byte, FromBytes, Rotr16, Rotr24, Rotr32, Rotr63, SwapHalves, ShiftXorDouble;
    Rot16Bytes(x.lo);
    Rot16Bytes(x.hi);
    Rot24Bytes(x.lo);
    Rot24Bytes(x.hi);
    Rot32Halves(x.lo);
    Rot32Halves(x.hi);
    Rot63Doubled(x.lo);
    Rot63Doubled(x.hi);
  }

  function FBlaMkaVec(x: Reg, y: Reg): Reg {
    var z := MulEpu32(x, y);
    Add64(Add64(x, y), Add64(z, z))
  }

  datatype VecQuad = VecQuad(a: Reg, b: Reg, c: Reg, d: Reg)

  /** One register column of `G1`; the macro does two side by side. */
  function G1(q: VecQuad): VecQuad {
    var a := FBlaMkaVec(q.a, q.b);
    var d := RotVec32(Xor128(q.d, a));
    var c := FBlaMkaVec(q.c, d);
    VecQuad(a, RotVec24(Xor128(q.b, c)), c, d)
  }

  function G2(q: VecQuad): VecQuad {
    var a := FBlaMkaVec(q.a, q.b);
    var d := RotVec16(Xor128(q.d, a));
    var c := FBlaMkaVec(q.c, d);
    VecQuad(a, RotVec63(Xor128(q.b, c)), c, d)
  }

  function LoLane(q: VecQuad): Quad { Quad(q.a.lo, q.b.lo, q.c.lo, q.d.lo) }
  function HiLane(q: VecQuad): Quad { Quad(q.a.hi, q.b.hi, q.c.hi, q.d.hi) }

  lemma Doubled(z: Word)
    ensures Double(z) == Sum(z, z)
  {
  }

  lemma FBlaMkaLanes(x: Reg, y: Reg)
    ensures FBlaMkaVec(x, y) == Reg(FBlaMka(x.lo, y.lo), FBlaMka(x.hi, y.hi))
  {
    hide MulLow, MulLane, Sum, Double;
    LaneIsLow(x.lo, y.lo);
    LaneIsLow(x.hi, y.hi);
    Doubled(MulLow(x.lo, y.lo));
    Doubled(MulLow(x.hi, y.hi));
  }

  lemma G1Lanes(q: VecQuad)
    ensures LoLane(G1(q)) == HalfG1(LoLane(q)) && HiLane(G1(q)) == HalfG1(HiLane(q))
  {
    hide FBlaMkaVec, FBlaMka, RotVec32, RotVec24, Rotr32, Rotr24, Xor;
    var a := FBlaMkaVec(q.a, q.b);
    FBlaMkaLanes(q.a, q.b);
    VectorRotations(Xor128(q.d, a));
    var d := RotVec32(Xor128(q.d, a));
    FBlaMkaLanes(q.c, d);
    VectorRotations(Xor128(q.b, FBlaMkaVec(q.c, d)));
  }

  lemma G2Lanes(q: VecQuad)
    ensures LoLane(G2(q)) == HalfG2(LoLane(q)) && HiLane(G2(q)) == HalfG2(HiLane(q))
  {
    hide FBlaMkaVec, FBlaMka, RotVec16, RotVec63, Rotr16, Rotr63, Xor;
    var a := FBlaMkaVec(q.a, q.b);
    FBlaMkaLanes(q.a, q.b);
    VectorRotations(Xor128(q.d, a));
    var d := RotVec16(Xor128(q.d, a));
    FBlaMkaLanes(q.c, d);
    VectorRotations(Xor128(q.b, FBlaMkaVec(q.c, d)));
  }

  /** Eight registers in the order of the macro arguments A0, A1, B0, B1, C0, C1, D0, D1. */
  datatype Regs = Regs(a0: Reg, a1: Reg, b0: Reg, b1: Reg, c0: Reg, c1: Reg, d0: Reg, d1: Reg)

  function GBoth(r: Regs): Regs {
    var p0, p1 := G2(G1(VecQuad(r.a0, r.b0, r.c0, r.d0))), G2(G1(VecQuad(r.a1, r.b1, r.c1, r.d1)));
    Regs(p0.a, p1.a, p0.b, p1.b, p0.c, p1.c, p0.d, p1.d)
  }

  function Diagonalize(r: Regs): Regs {
    Regs(r.a0, r.a1, Alignr8(r.b1, r.b0), Alignr8(r.b0, r.b1), r.c1, r.c0, Alignr8(r.d0, r.d1), Alignr8(r.d1, r.d0))
  }

  function Undiagonalize(r: Regs): Regs {
    Regs(r.a0, r.a1, Alignr8(r.b0, r.b1), Alignr8(r.b1, r.b0), r.c1, r.c0, Alignr8(r.d1, r.d0), Alignr8(r.d0, r.d1))
  }

  /** `BLAKE2_ROUND` of the SSSE3 header. */
  function RoundSsse3(r: Regs): Regs {
    Undiagonalize(GBoth(Diagonalize(GBoth(r))))
  }

  function Pair(x: Reg, y: Reg): Row { Row(x.lo, x.hi, y.lo, y.hi) }

  function Words(r: Regs): Matrix {
    Matrix(Pair(r.a0, r.a1), Pair(r.b0, r.b1), Pair(r.c0, r.c1), Pair(r.d0, r.d1))
  }

  lemma GBothLanes(r: Regs)
    ensures var s := GBoth(r);
            && Quad(s.a0.lo, s.b0.lo, s.c0.lo, s.d0.lo) == G(Quad(r.a0.lo, r.b0.lo, r.c0.lo, r.d0.lo))
            && Quad(s.a0.hi, s.b0.hi, s.c0.hi, s.d0.hi) == G(Quad(r.a0.hi, r.b0.hi, r.c0.hi, r.d0.hi))
            && Quad(s.a1.lo, s.b1.lo, s.c1.lo, s.d1.lo) == G(Quad(r.a1.lo, r.b1.lo, r.c1.lo, r.d1.lo))
            && Quad(s.a1.hi, s.b1.hi, s.c1.hi, s.d1.hi) == G(Quad(r.a1.hi, r.b1.hi, r.c1.hi, r.d1.hi))
  {
    hide G1, G2, HalfG1, HalfG2;
    var q0, q1 := VecQuad(r.a0, r.b0, r.c0, r.d0), VecQuad(r.a1, r.b1, r.c1, r.d1);
    G1Lanes(q0);
    G1Lanes(q1);
    G2Lanes(G1(q0));
    G2Lanes(G1(q1));
  }

  /** The SSSE3 round computes the scalar round, for all inputs. */
  lemma Ssse3IsScalar(r: Regs)
    ensures Words(RoundSsse3(r)) == Round(Words(r))
  {
    hide GBoth, G;
    GBothLanes(r);
    GBothLanes(Diagonalize(GBoth(r)));
  }

  // ------------------------------------------------- 256-bit registers

  /** `_mm256_permute4x64_epi64(x, _MM_SHUFFLE(i3, i2, i1, i0))`. */
  function Permute(x: Row, i3: nat, i2: nat, i1: nat, i0: nat): Row
    requires i3 < 4 && i2 < 4 && i1 < 4 && i0 < 4
  {
    Row(At(x, i0), At(x, i1), At(x, i2), At(x, i3))
  }

  function At(x: Row, i: nat): Word
    requires i < 4
  {
    match i case 0 => x.w0 case 1 => x.w1 case 2 => x.w2 case _ => x.w3
  }

  /** `_mm256_blend_epi32(x, y, 0xCC)`: the odd words come from `y`. */
  function BlendCC(x: Row, y: Row): Row { Row(x.w0, y.w1, x.w2, y.w3) }

  /** `_mm256_blend_epi32(x, y, 0x33)`: the even words come from `y`. */
  function Blend33(x: Row, y: Row): Row { Row(y.w0, x.w1, y.w2, x.w3) }

  /** The two 128-bit halves of a register; `_mm256_shuffle_epi8` works inside each half. */
  function Low(x: Row): Reg { Reg(x.w0, x.w1) }
  function High(x: Row): Reg { Reg(x.w2, x.w3) }

  function Add256(x: Row, y: Row): Row { Row(Sum(x.w0, y.w0), Sum(x.w1, y.w1), Sum(x.w2, y.w2), Sum(x.w3, y.w3)) }
  function Xor256(x: Row, y: Row): Row { Row(Xor(x.w0, y.w0), Xor(x.w1, y.w1), Xor(x.w2, y.w2), Xor(x.w3, y.w3)) }

  function MulWide(x: Row, y: Row): Row {
    Row(MulLane(x.w0, y.w0), MulLane(x.w1, y.w1), MulLane(x.w2, y.w2), MulLane(x.w3, y.w3))
  }

  function RotWide32(x: Row): Row { Row(SwapHalves(x.w0), SwapHalves(x.w1), SwapHalves(x.w2), SwapHalves(x.w3)) }
  function RotWide24(x: Row): Row { Pair(ShuffleEpi8(Low(x), R24), ShuffleEpi8(High(x), R24)) }
  function RotWide16(x: Row): Row { Pair(ShuffleEpi8(Low(x), R16), ShuffleEpi8(High(x), R16)) }
  function RotWide63(x: Row): Row {
    Row(ShiftXorDouble(x.w0), ShiftXorDouble(x.w1), ShiftXorDouble(x.w2), ShiftXorDouble(x.w3))
  }

  /** The multiply-and-add of the AVX2 macros: the doubled product is added to `y` first. */
  function FBlaMkaWide(x: Row, y: Row): Row {
    var ml := MulWide(x, y);
    Add256(x, Add256(y, Add256(ml, ml)))
  }

  datatype WideQuad = WideQuad(a: Row, b: Row, c: Row, d: Row)

  function LowQuad(q: WideQuad): VecQuad { VecQuad(Low(q.a), Low(q.b), Low(q.c), Low(q.d)) }
  function HighQuad(q: WideQuad): VecQuad { VecQuad(High(q.a), High(q.b), High(q.c), High(q.d)) }

  /** One register column of `G1_AVX2`. */
  function G1Wide(q: WideQuad): WideQuad {
    var a := FBlaMkaWide(q.a, q.b);
    var d := RotWide32(Xor256(q.d, a));
    var c := FBlaMkaWide(q.c, d);
    WideQuad(a, RotWide24(Xor256(q.b, c)), c, d)
  }

  /** One register column of `G2_AVX2`. */
  function G2Wide(q: WideQuad): WideQuad {
    var a := FBlaMkaWide(q.a, q.b);
    var d := RotWide16(Xor256(q.d, a));
    var c := FBlaMkaWide(q.c, d);
    WideQuad(a, RotWide63(Xor256(q.b, c)), c, d)
  }

  function GWide(q: WideQuad): WideQuad { G2Wide(G1Wide(q)) }

  lemma SumAssociative(x: Word, y: Word, z: Word)
    ensures Sum(x, Sum(y, z)) == Sum(Sum(x, y), z)
  {
    calc {
      Sum(x, Sum(y, z));
      x + Sum(y, z);
      x + (y + z);
      { AddAssociative(x, y, z); }
      (x + y) + z;
      Sum(x, y) + z;
      Sum(Sum(x, y), z);
    }
  }

  lemma AddAssociative(x: Word, y: Word, z: Word)
    ensures x + (y + z) == (x + y) + z
  {
  }

  lemma FBlaMkaHalves(x: Row, y: Row)
    ensures Low(FBlaMkaWide(x, y)) == FBlaMkaVec(Low(x), Low(y))
    ensures High(FBlaMkaWide(x, y)) == FBlaMkaVec(High(x), High(y))
  {
    hide MulLow, Sum;
    var z := MulWide(x, y);
    SumAssociative(x.w0, y.w0, Sum(z.w0, z.w0));
    SumAssociative(x.w1, y.w1, Sum(z.w1, z.w1));
    SumAssociative(x.w2, y.w2, Sum(z.w2, z.w2));
    SumAssociative(x.w3, y.w3, Sum(z.w3, z.w3));
  }

  lemma G1Halves(q: WideQuad)
    ensures LowQuad(G1Wide(q)) == G1(LowQuad(q)) && HighQuad(G1Wide(q)) == G1(HighQuad(q))
  {
    hide FBlaMkaWide, FBlaMkaVec, Xor, SwapHalves, ShuffleEpi8;
    FBlaMkaHalves(q.a, q.b);
    FBlaMkaHalves(q.c, RotWide32(Xor256(q.d, FBlaMkaWide(q.a, q.b))));
  }

  lemma G2Halves(q: WideQuad)
    ensures LowQuad(G2Wide(q)) == G2(LowQuad(q)) && HighQuad(G2Wide(q)) == G2(HighQuad(q))
  {
    hide FBlaMkaWide, FBlaMkaVec, Xor, ShiftXorDouble, ShuffleEpi8;
    FBlaMkaHalves(q.a, q.b);
    FBlaMkaHalves(q.c, RotWide16(Xor256(q.d, FBlaMkaWide(q.a, q.b))));
  }

  datatype WideRegs = WideRegs(a0: Row, a1: Row, b0: Row, b1: Row, c0: Row, c1: Row, d0: Row, d1: Row)

  function GWideBoth(r: WideRegs): WideRegs {
    var p0, p1 := GWide(WideQuad(r.a0, r.b0, r.c0, r.d0)), GWide(WideQuad(r.a1, r.b1, r.c1, r.d1));
    WideRegs(p0.a, p1.a, p0.b, p1.b, p0.c, p1.c, p0.d, p1.d)
  }

  function Diagonalize1(r: WideRegs): WideRegs {
    WideRegs(r.a0, r.a1, Permute(r.b0, 0, 3, 2, 1), Permute(r.b1, 0, 3, 2, 1),
             Permute(r.c0, 1, 0, 3, 2), Permute(r.c1, 1, 0, 3, 2), Permute(r.d0, 2, 1, 0, 3), Permute(r.d1, 2, 1, 0, 3))
  }

  function Undiagonalize1(r: WideRegs): WideRegs {
    WideRegs(r.a0, r.a1, Permute(r.b0, 2, 1, 0, 3), Permute(r.b1, 2, 1, 0, 3),
             Permute(r.c0, 1, 0, 3, 2), Permute(r.c1, 1, 0, 3, 2), Permute(r.d0, 0, 3, 2, 1), Permute(r.d1, 0, 3, 2, 1))
  }

  function Diagonalize2(r: WideRegs): WideRegs {
    WideRegs(r.a0, r.a1,
             Permute(Blend33(r.b0, r.b1), 2, 3, 0, 1), Permute(BlendCC(r.b0, r.b1), 2, 3, 0, 1),
             r.c1, r.c0,
             Permute(BlendCC(r.d0, r.d1), 2, 3, 0, 1), Permute(Blend33(r.d0, r.d1), 2, 3, 0, 1))
  }

  function Undiagonalize2(r: WideRegs): WideRegs {
    WideRegs(r.a0, r.a1,
             Permute(BlendCC(r.b0, r.b1), 2, 3, 0, 1), Permute(Blend33(r.b0, r.b1), 2, 3, 0, 1),
             r.c1, r.c0,
             Permute(Blend33(r.d0, r.d1), 2, 3, 0, 1), Permute(BlendCC(r.d0, r.d1), 2, 3, 0, 1))
  }

  function Round1Avx2(r: WideRegs): WideRegs { Undiagonalize1(GWideBoth(Diagonalize1(GWideBoth(r)))) }
  function Round2Avx2(r: WideRegs): WideRegs { Undiagonalize2(GWideBoth(Diagonalize2(GWideBoth(r)))) }

  lemma GWideLanes(q: WideQuad)
    ensures var s := GWide(q);
            && Quad(s.a.w0, s.b.w0, s.c.w0, s.d.w0) == G(Quad(q.a.w0, q.b.w0, q.c.w0, q.d.w0))
            && Quad(s.a.w1, s.b.w1, s.c.w1, s.d.w1) == G(Quad(q.a.w1, q.b.w1, q.c.w1, q.d.w1))
            && Quad(s.a.w2, s.b.w2, s.c.w2, s.d.w2) == G(Quad(q.a.w2, q.b.w2, q.c.w2, q.d.w2))
            && Quad(s.a.w3, s.b.w3, s.c.w3, s.d.w3) == G(Quad(q.a.w3, q.b.w3, q.c.w3, q.d.w3))
  {
    hide G1, G2, G1Wide, G2Wide, HalfG1, HalfG2;
    G1Halves(q);
    G2Halves(G1Wide(q));
    G1Lanes(LowQuad(q));
    G1Lanes(HighQuad(q));
    G2Lanes(G1(LowQuad(q)));
    G2Lanes(G1(HighQuad(q)));
  }

  /** The two matrices that `BLAKE2_ROUND_1` works on: one in the A0.. registers, one in the A1.. ones. */
  function Whole0(r: WideRegs): Matrix { Matrix(r.a0, r.b0, r.c0, r.d0) }
  function Whole1(r: WideRegs): Matrix { Matrix(r.a1, r.b1, r.c1, r.d1) }

  lemma Avx2Round1IsScalar(r: WideRegs)
    ensures Whole0(Round1Avx2(r)) == Round(Whole0(r))
    ensures Whole1(Round1Avx2(r)) == Round(Whole1(r))
  {
    hide GWide, G;
    var s := Diagonalize1(GWideBoth(r));
    GWideLanes(WideQuad(r.a0, r.b0, r.c0, r.d0));
    GWideLanes(WideQuad(r.a1, r.b1, r.c1, r.d1));
    GWideLanes(WideQuad(s.a0, s.b0, s.c0, s.d0));
    GWideLanes(WideQuad(s.a1, s.b1, s.c1, s.d1));
  }

  /** The two matrices that `BLAKE2_ROUND_2` works on: the low and the high halves of all registers. */
  function LowHalf(r: WideRegs): Regs {
    Regs(Low(r.a0), Low(r.a1), Low(r.b0), Low(r.b1), Low(r.c0), Low(r.c1), Low(r.d0), Low(r.d1))
  }

  function HighHalf(r: WideRegs): Regs {
    Regs(High(r.a0), High(r.a1), High(r.b0), High(r.b1), High(r.c0), High(r.c1), High(r.d0), High(r.d1))
  }

  lemma Round2Low(r: WideRegs)
    ensures Words(LowHalf(Round2Avx2(r))) == Round(Words(LowHalf(r)))
  {
    hide GWide, G;
    var s := Diagonalize2(GWideBoth(r));
    GWideLanes(WideQuad(r.a0, r.b0, r.c0, r.d0));
    GWideLanes(WideQuad(r.a1, r.b1, r.c1, r.d1));
    GWideLanes(WideQuad(s.a0, s.b0, s.c0, s.d0));
    GWideLanes(WideQuad(s.a1, s.b1, s.c1, s.d1));
  }

  /** The high words of both register columns are four applications of G. */
  lemma WideColumns(r: WideRegs)
    ensures var s := GWideBoth(r);
            && Quad(s.a0.w2, s.b0.w2, s.c0.w2, s.d0.w2) == G(Quad(r.a0.w2, r.b0.w2, r.c0.w2, r.d0.w2))
            && Quad(s.a0.w3, s.b0.w3, s.c0.w3, s.d0.w3) == G(Quad(r.a0.w3, r.b0.w3, r.c0.w3, r.d0.w3))
            && Quad(s.a1.w2, s.b1.w2, s.c1.w2, s.d1.w2) == G(Quad(r.a1.w2, r.b1.w2, r.c1.w2, r.d1.w2))
            && Quad(s.a1.w3, s.b1.w3, s.c1.w3, s.d1.w3) == G(Quad(r.a1.w3, r.b1.w3, r.c1.w3, r.d1.w3))
  {
    hide GWide, G;
    GWideLanes(WideQuad(r.a0, r.b0, r.c0, r.d0));
    GWideLanes(WideQuad(r.a1, r.b1, r.c1, r.d1));
  }

  lemma HighDiagonals(t: WideRegs)
    ensures var s := Diagonalize2(t);
            && s.a0 == t.a0 && s.a1 == t.a1 && s.c0 == t.c1 && s.c1 == t.c0
            && s.b0.w2 == t.b0.w3 && s.b0.w3 == t.b1.w2 && s.b1.w2 == t.b1.w3 && s.b1.w3 == t.b0.w2
            && s.d0.w2 == t.d1.w3 && s.d0.w3 == t.d0.w2 && s.d1.w2 == t.d0.w3 && s.d1.w3 == t.d1.w2
  {
  }

  lemma HighUndone(u: WideRegs)
    ensures Words(HighHalf(Undiagonalize2(u))) ==
            Matrix(Row(u.a0.w2, u.a0.w3, u.a1.w2, u.a1.w3), Row(u.b1.w3, u.b0.w2, u.b0.w3, u.b1.w2),
                   Row(u.c1.w2, u.c1.w3, u.c0.w2, u.c0.w3), Row(u.d0.w3, u.d1.w2, u.d1.w3, u.d0.w2))
  {
  }

  lemma RoundTwoIs(r: WideRegs)
    ensures Round2Avx2(r) == Undiagonalize2(GWideBoth(Diagonalize2(GWideBoth(r))))
  {
  }

  lemma Round2High(r: WideRegs)
    ensures Words(HighHalf(Round2Avx2(r))) == Round(Words(HighHalf(r)))
  {
    hide GWide, G, GWideBoth, Round2Avx2;
    var t := GWideBoth(r);
    var s := Diagonalize2(t);
    var u := GWideBoth(s);
    WideColumns(r);
    WideColumns(s);
    HighDiagonals(t);
    HighUndone(u);
    RoundTwoIs(r);
  }

  lemma Avx2Round2IsScalar(r: WideRegs)
    ensures Words(LowHalf(Round2Avx2(r))) == Round(Words(LowHalf(r)))
    ensures Words(HighHalf(Round2Avx2(r))) == Round(Words(HighHalf(r)))
  {
    hide Round2Avx2, Round, Words, LowHalf, HighHalf;
    Round2Low(r);
    Round2High(r);
  }
}
