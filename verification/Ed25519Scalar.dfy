/**
 Scalars of Ed25519 as 32 little-endian bytes: negation, complement, addition and
 subtraction modulo the group order L, on top of the byte loops. The reduction of a 64-byte
 value is taken as reduction modulo L.
 */
module Ed25519Scalar {
  import opened Machine
  import opened Bytes
  import Limbs

  type Scalar = s: seq<byte> | |s| == 32 witness Zeros(32)

  /** All but the highest byte of the group order. */
  function LowBytes(): (s: seq<byte>)
    ensures |s| == 31 && s[0] == 0xed
  {
    [0xed, 0xd3, 0xf5, 0x5c, 0x1a, 0x63, 0x12, 0x58, 0xd6, 0x9c, 0xf7,
     0xa2, 0xde, 0xf9, 0xde, 0x14, 0x00, 0x00, 0x00, 0x00, 0x00, 0x00,
     0x00, 0x00, 0x00, 0x00, 0x00, 0x00, 0x00, 0x00, 0x00]
  }

  /** The order of the group, as the bytes the code holds. */
  function LBytes(): Scalar { LowBytes() + [0x10] }

  function L(): (l: nat)
    ensures l > 0
  {
    OrderBounds();
    Value(LBytes())
  }

  /** L lies strictly between 16 and 17 times 256^31. */
  lemma OrderBounds()
    ensures 16 * Pow256(31) < Value(LBytes()) < 17 * Pow256(31)
    ensures Pow256(32) == 256 * Pow256(31)
  {
    hide LowBytes;
    ValueSnoc(LowBytes(), 0x10);
    ValueBound(LowBytes());
    ValueFirst(LowBytes());
  }

  /** The order is 2^252 + 27742317777372353535851937790883648493. */
  lemma OrderIs()
    ensures L() == 16 * Pow256(31) + 27742317777372353535851937790883648493
  {
    hide LowBytes, Value, Pow256;
    ValueSnoc(LowBytes(), 0x10);
    LowValue();
  }

  /** The lower 31 bytes, whole: the upper half of them is zero. */
  lemma LowValue()
    ensures Value(LowBytes()) == 27742317777372353535851937790883648493
  {
    LowParts();
    LowestEight();
    NextEight();
    Pow256Eight();
    hide LowBytes, Value, Pow256, Lowest, Second;
    ValueConcat(Lowest(), Second() + Zeros(15));
    ValueConcat(Second(), Zeros(15));
    ValueZeros(15);
  }

  function Lowest(): (s: seq<byte>)
    ensures |s| == 8
  {
    [0xed, 0xd3, 0xf5, 0x5c, 0x1a, 0x63, 0x12, 0x58]
  }

  function Second(): (s: seq<byte>)
    ensures |s| == 8
  {
    [0xd6, 0x9c, 0xf7, 0xa2, 0xde, 0xf9, 0xde, 0x14]
  }

  lemma LowParts()
    ensures LowBytes() == Lowest() + (Second() + Zeros(15))
  {
  }

  lemma LowestEight()
    ensures Value(Lowest()) == 0x5812_631a_5cf5_d3ed
  {
    hide Value;
    EightByteValue(Lowest());
  }

  lemma NextEight()
    ensures Value(Second()) == 0x14de_f9de_a2f7_9cd6
  {
    hide Value;
    EightByteValue(Second());
  }

  lemma Pow256Eight()
    ensures Pow256(8) == 0x1_0000_0000_0000_0000
  {
    assert Pow256(4) == 256 * Pow256(3) && Pow256(3) == 256 * Pow256(2) && Pow256(2) == 0x1_0000;
    assert Pow256(8) == 256 * Pow256(7) && Pow256(7) == 256 * Pow256(6);
    assert Pow256(6) == 256 * Pow256(5) && Pow256(5) == 256 * Pow256(4);
  }

  lemma EightByteValue(s: seq<byte>)
    requires |s| == 8
    ensures Value(s) == s[0] as int + 0x100 * s[1] as int + 0x1_0000 * s[2] as int + 0x100_0000 * s[3] as int
            + 0x1_0000_0000 * s[4] as int + 0x100_0000_0000 * s[5] as int + 0x1_0000_0000_0000 * s[6] as int
            + 0x100_0000_0000_0000 * s[7] as int
  {
    FourByteValue(s[..4]);
    FourByteValue(s[4..]);
    assert s == s[..4] + s[4..];
    ValueConcat(s[..4], s[4..]);
    assert Pow256(4) == 256 * Pow256(3) && Pow256(3) == 256 * Pow256(2) && Pow256(2) == 0x1_0000;
  }

  lemma FourByteValue(s: seq<byte>)
    requires |s| == 4
    ensures Value(s) == s[0] as int + 0x100 * s[1] as int + 0x1_0000 * s[2] as int + 0x100_0000 * s[3] as int
  {
    var a, b, c := s[1..], s[2..], s[3..];
    assert a[1..] == b && b[1..] == c && c[1..] == [] && a[0] == s[1] && b[0] == s[2] && c[0] == s[3];
    assert Value(c) == s[3] && Value(b) == s[2] as int + 256 * Value(c) && Value(a) == s[1] as int + 256 * Value(b);
  }

  predicate Reduced(s: Scalar) { Value(s) < L() }

  /** The value of a number modulo L, as a scalar. */
  function Mod(x: int): (s: Scalar) { Little(Remainder(x), 32) }

  function Remainder(x: int): nat { x % L() }

  lemma ModValue(x: int)
    ensures Value(Mod(x)) == x % L() && Reduced(Mod(x))
  {
    hide Value, Little, Pow256;
    OrderBounds();
    ValueLittle(Remainder(x), 32);
  }

  /** `one` minus a scalar, modulo L. */
  function Minus(one: int, s: Scalar): Scalar { Mod(one - Value(s) as int) }

  /** `sc25519_reduce` on 64 bytes. */
  function Reduce(t: seq<byte>): Scalar { Mod(Value(t)) }

  // ----------------------------------------------------------- operations

  /** A scalar as the low or the high half of 64 bytes. */
  lemma Halves(s: Scalar)
    ensures Value(s + Zeros(32)) == Value(s)
    ensures Value(Zeros(32) + s) == Value(s) * Pow256(32)
  {
    hide Value, Pow256, LBytes;
    ValueConcat(s, Zeros(32));
    ValueConcat(Zeros(32), s);
    ValueZeros(32);
  }

  /** `t_ - s_` on 64 bytes, with `t_` equal to L 256^32 plus `one`: no borrow leaves the top. */
  method Difference(s: Scalar, one: byte) returns (r: Scalar)
    requires one <= 1
    ensures r == Minus(one, s)
  {
    hide Value, Pow256, Little, L, LBytes;
    var t := new byte[64](_ => Zero());
    CopyInto(t, 32, LBytes());
    t[0] := one;
    assert t[32..] == t[32..32 + 32];
    TopWithOne(one, t[..]);
    Halves(s);
    ghost var was := t[..];
    assert t[..64] == was && (s + Zeros(32))[..64] == s + Zeros(32);
    ghost var borrow := Limbs.Sub(t, s + Zeros(32), 64);
    assert t[..64] == t[..];
    DifferenceValue(one, s, Value(was), Value(t[..]), borrow);
    r := Reduce(t[..]);
  }

  lemma DifferenceValue(one: byte, s: Scalar, was: nat, now: nat, borrow: nat)
    requires was == one + Pow256(32) * L()
    requires borrow == (if was < Value(s) then 1 else 0) && now == was - Value(s) + borrow * Pow256(64)
    ensures Mod(now) == Minus(one, s)
  {
    hide Value, Pow256, Little, L;
    ValueBound(s);
    Above(L(), Pow256(32), Value(s));
    ModShift(one - Value(s) as int, Pow256(32), L());
  }

  lemma TopWithOne(one: byte, t: seq<byte>)
    requires |t| == 64 && t[0] == one && t[32..] == LBytes() && forall i :: 1 <= i < 32 ==> t[i] == 0
    ensures Value(t) == one + Pow256(32) * L()
  {
    hide Pow256, LBytes, Value;
    var low := t[..32];
    assert t == low + LBytes();
    ValueConcat(low, LBytes());
    assert low[1..] == Zeros(31);
    ValueFirst(low);
    ValueZeros(31);
    Commute(Value(LBytes()), Pow256(32));
  }

  lemma Commute(a: nat, b: nat)
    ensures a * b == b * a
  {
  }

  /** Two reduced scalars fit in 32 bytes. */
  lemma OrderSmall()
    ensures L() + L() < Pow256(32)
  {
    hide LBytes, Value;
    OrderBounds();
  }

  lemma Above(l: nat, p: nat, v: nat)
    requires l > 0 && v < p
    ensures p * l > v
  {
    MulMono(1, l, p);
  }

  /** `crypto_core_ed25519_scalar_negate`: -s modulo L, for every 32-byte s. */
  method Negate(s: Scalar) returns (neg: Scalar)
    ensures neg == Minus(0, s)
  {
    neg := Difference(s, 0);
  }

  /** `crypto_core_ed25519_scalar_complement`: 1 - s modulo L, for every 32-byte s. */
  method Complement(s: Scalar) returns (comp: Scalar)
    ensures comp == Minus(1, s)
  {
    comp := Difference(s, 1);
  }

  /** What addition computes: the carry out of the low 32 bytes is not kept. */
  function Sum(x: Scalar, y: Scalar): Scalar { Mod((Value(x) + Value(y)) % Pow256(32)) }

  /** `crypto_core_ed25519_scalar_add`. */
  method Add(x: Scalar, y: Scalar) returns (z: Scalar)
    ensures z == Sum(x, y)
  {
    hide Value, Pow256, Little, L, LBytes;
    var t := new byte[64](_ => Zero());
    CopyInto(t, 0, x);
    assert t[..32] == t[0..0 + 32];
    Limbs.Add(t, y + Zeros(32), 32);
    assert (y + Zeros(32))[..32] == y;
    assert t[..] == t[..32] + Zeros(32);
    Halves(t[..32]);
    z := Reduce(t[..]);
  }

  /** `crypto_core_ed25519_scalar_sub`. */
  method Sub(x: Scalar, y: Scalar) returns (z: Scalar)
    ensures z == Sum(x, Minus(0, y))
  {
    var yn := Negate(y);
    z := Add(x, yn);
  }

  // ----------------------------------------------------------------- laws

  /** 256^32 is no multiple of L. */
  lemma PowerNotMultiple(k: int)
    ensures Pow256(32) != k * L()
  {
    OrderBounds();
    hide Pow256, Value;
    if k <= 15 {
      ProductBelow(k, 15, L());
    } else {
      ProductBelow(16, k, L());
    }
  }

  lemma ProductBelow(a: int, b: int, c: nat)
    requires a <= b
    ensures a * c <= b * c
  {
  }

  /** The sum is the sum modulo L exactly when it fits in 32 bytes. */
  lemma SumIsSum(x: Scalar, y: Scalar)
    ensures Value(Sum(x, y)) == (Value(x) + Value(y)) % L() <==> Value(x) + Value(y) < Pow256(32)
  {
    hide Value, Pow256, Little, L, LBytes;
    var p, v := Pow256(32), Value(x) + Value(y);
    ValueBound(x);
    ValueBound(y);
    ModOnce(v, p);
    ModValue(v % p);
    if v >= p && (v - p) % L() == v % L() {
      var q, q' := v / L(), (v - p) / L();
      assert p == (q - q') * L() by {
        assert (q - q') * L() == q * L() - q' * L();
      }
      PowerNotMultiple(q - q');
    }
  }

  /** 2^255 as a scalar. */
  function TopBit(): Scalar { Little(0x80 * Pow256(31), 32) }

  lemma TopBitValue()
    ensures Value(TopBit()) + Value(TopBit()) == Pow256(32)
  {
    assert Pow256(32) == 256 * Pow256(31);
    hide Pow256, Value, Little;
    ValueLittle(0x80 * Pow256(31), 32);
  }

  lemma ZeroSum(x: Scalar, y: Scalar)
    requires Value(x) + Value(y) == Pow256(32)
    ensures Value(Sum(x, y)) == 0
  {
    hide Pow256, Value, Mod, L, LBytes;
    var p: nat := Pow256(32);
    ModUnique(p, 1, 0, p);
    ModValue(0);
    OrderBounds();
    ModUnique(0, 0, 0, L());
  }

  /** Doubling 2^255 drops everything: the result is zero, and 2^256 is no multiple of L. */
  lemma CarryLost()
    ensures Value(Sum(TopBit(), TopBit())) == 0 && (Value(TopBit()) + Value(TopBit())) % L() != 0
  {
    TopBitValue();
    hide TopBit, Sum, Value, Pow256, L, LBytes;
    var s := TopBit();
    SumIsSum(s, s);
    OrderBounds();
    ZeroSum(s, s);
  }

  /** Reduced scalars never lose a carry. */
  lemma ReducedFit(x: Scalar, y: Scalar)
    requires Reduced(x) && Reduced(y)
    ensures Value(x) + Value(y) < Pow256(32)
    ensures Value(Sum(x, y)) == (Value(x) + Value(y)) % L() && Reduced(Sum(x, y))
  {
    hide Value, Pow256, Little, L, Mod;
    OrderSmall();
    SumIsSum(x, y);
    ModValue((Value(x) + Value(y)) % Pow256(32));
  }

  /** Adding a difference modulo L. */
  lemma SumOfMinus(x: Scalar, one: nat, y: Scalar)
    requires Reduced(x)
    ensures Value(Sum(x, Minus(one, y))) == (Value(x) + one - Value(y)) % L()
  {
    hide Value, Pow256, Little, L;
    ModValue(one - Value(y) as int);
    ReducedFit(x, Minus(one, y));
    ModUnique(Value(x), 0, Value(x), L());
    ModAdd(Value(x), one - Value(y) as int, L());
  }

  /** x + (-x) is zero. */
  lemma AddNegate(x: Scalar)
    requires Reduced(x)
    ensures Sum(x, Minus(0, x)) == Zeros(32)
  {
    hide Value, L, Sum, Minus;
    SumOfMinus(x, 0, x);
    ModUnique(0, 0, 0, L());
    ValueZeros(32);
    ValueInjective(Sum(x, Minus(0, x)), Zeros(32));
  }

  lemma SumValue(x: Scalar, y: Scalar)
    requires Reduced(x) && Reduced(y)
    ensures Value(Sum(x, y)) == Remainder(Value(x) + Value(y)) && Reduced(Sum(x, y))
  {
    hide Value, L, Sum;
    ReducedFit(x, y);
  }

  lemma DifferenceOf(x: Scalar, y: Scalar)
    requires Reduced(x)
    ensures Value(Sum(x, Minus(0, y))) == Remainder(Value(x) - Value(y) as int)
  {
    hide Value, L, Sum, Minus;
    SumOfMinus(x, 0, y);
  }

  lemma RemainderLaws(t: int, v: nat)
    requires v <= t && t - v < L()
    ensures Remainder(Remainder(t) - v) == t - v
  {
    hide L;
    ModUnique(t - v, 0, t - v, L());
    var q := t / L();
    assert t % L() - v == t - v + (-q) * L();
    ModShift(t - v, -q, L());
  }

  /** (x + y) - y is x. */
  lemma SubAfterAdd(x: Scalar, y: Scalar)
    requires Reduced(x) && Reduced(y)
    ensures Sum(Sum(x, y), Minus(0, y)) == x
  {
    hide Value, L, Sum, Minus, Remainder;
    SumValue(x, y);
    DifferenceOf(Sum(x, y), y);
    RemainderLaws(Value(x) + Value(y), Value(y));
    ValueInjective(Sum(Sum(x, y), Minus(0, y)), x);
  }

  /** s and its complement add up to one. */
  lemma AddComplement(s: Scalar)
    requires Reduced(s)
    ensures Value(Sum(s, Minus(1, s))) == 1
  {
    hide Value, Sum, Minus, L;
    SumOfMinus(s, 1, s);
    OneBelow();
    ModUnique(1, 0, 1, L());
  }

  lemma OneBelow()
    ensures 1 < L()
  {
    OrderBounds();
  }
}
