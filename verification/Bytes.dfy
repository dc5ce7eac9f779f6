/**
 Bytes as numbers below 256, the bitwise operations of C on them, and little-endian
 byte strings.
 */
module Bytes {
  import opened Machine

  function Pow2(k: nat): (p: nat)
    ensures p > 0
  {
    if k == 0 then 1 else 2 * Pow2(k - 1)
  }

  /** Bitwise operations on the lowest `k` bits. */
  function XorBits(x: nat, y: nat, k: nat): (z: nat)
    ensures z < Pow2(k)
  {
    if k == 0 then 0 else 2 * XorBits(x / 2, y / 2, k - 1) + Parity(x, y)
  }

  function Parity(x: nat, y: nat): (p: nat)
    ensures p < 2
  {
    (x % 2 + y % 2) % 2
  }

  function AndBits(x: nat, y: nat, k: nat): (z: nat)
    ensures z < Pow2(k)
  {
    if k == 0 then 0 else 2 * AndBits(x / 2, y / 2, k - 1) + (if x % 2 == 1 && y % 2 == 1 then 1 else 0)
  }

  function OrBits(x: nat, y: nat, k: nat): (z: nat)
    ensures z < Pow2(k)
  {
    if k == 0 then 0 else 2 * OrBits(x / 2, y / 2, k - 1) + (if x % 2 == 1 || y % 2 == 1 then 1 else 0)
  }

  lemma EightBits()
    ensures Pow2(8) == 256
  {
    assert Pow2(8) == 2 * Pow2(7) && Pow2(7) == 2 * Pow2(6) && Pow2(6) == 2 * Pow2(5) && Pow2(5) == 32;
  }

  function Xor(x: byte, y: byte): byte { EightBits(); XorBits(x, y, 8) }
  function And(x: byte, y: byte): byte { EightBits(); AndBits(x, y, 8) }
  function Or(x: byte, y: byte): byte { EightBits(); OrBits(x, y, 8) }

  lemma XorBitsStep(x: nat, y: nat, k: nat)
    requires k > 0
    ensures XorBits(x, y, k) / 2 == XorBits(x / 2, y / 2, k - 1)
    ensures XorBits(x, y, k) % 2 == Parity(x, y)
  {
    hide Parity;
  }

  lemma FromHalves(x: nat, y: nat)
    requires x / 2 == y / 2 && x % 2 == y % 2
    ensures x == y
  {
  }

  lemma ParityIs(x: nat, y: nat)
    ensures Parity(x, y) == if x % 2 == y % 2 then 0 else 1
  {
  }

  lemma ParityLaws(x: nat, y: nat, z: nat)
    ensures Parity(Parity(x, y), y) == x % 2
    ensures Parity(Parity(x, y), z) == Parity(x, Parity(y, z))
    ensures Parity(x, y) == Parity(x % 2, y) == Parity(x, y % 2)
  {
    hide Parity;
    ParityIs(x, y);
    ParityIs(y, z);
    ParityIs(Parity(x, y), y);
    ParityIs(Parity(x, y), z);
    ParityIs(x, Parity(y, z));
    ParityIs(x % 2, y);
    ParityIs(x, y % 2);
  }

  lemma {:induction false} XorBitsTwice(x: nat, y: nat, k: nat)
    requires x < Pow2(k)
    ensures XorBits(XorBits(x, y, k), y, k) == x
    decreases k
  {
    if k > 0 {
      var z := XorBits(x, y, k);
      hide XorBits, Parity;
      XorBitsTwice(x / 2, y / 2, k - 1);
      XorBitsStep(x, y, k);
      XorBitsStep(z, y, k);
      ParityLaws(x, y, y);
      ParityLaws(z, y, y);
      FromHalves(XorBits(z, y, k), x);
    }
  }

  lemma {:induction false} XorBitsZero(x: nat, y: nat, k: nat)
    requires x < Pow2(k) && y < Pow2(k)
    ensures XorBits(x, y, k) == 0 <==> x == y
    decreases k
  {
    if k > 0 {
      XorBitsZero(x / 2, y / 2, k - 1);
    }
  }

  lemma {:induction false} XorBitsCommute(x: nat, y: nat, k: nat)
    ensures XorBits(x, y, k) == XorBits(y, x, k)
    decreases k
  {
    if k > 0 {
      XorBitsCommute(x / 2, y / 2, k - 1);
    }
  }

  lemma {:induction false} XorBitsNone(x: nat, k: nat)
    requires x < Pow2(k)
    ensures XorBits(x, 0, k) == x
    decreases k
  {
    if k > 0 {
      XorBitsNone(x / 2, k - 1);
    }
  }

  lemma {:induction false} XorBitsAssociative(x: nat, y: nat, z: nat, k: nat)
    ensures XorBits(XorBits(x, y, k), z, k) == XorBits(x, XorBits(y, z, k), k)
    decreases k
  {
    if k > 0 {
      hide XorBits, Parity;
      var a, b := XorBits(x, y, k), XorBits(y, z, k);
      XorBitsAssociative(x / 2, y / 2, z / 2, k - 1);
      XorBitsStep(x, y, k);
      XorBitsStep(y, z, k);
      XorBitsStep(a, z, k);
      XorBitsStep(x, b, k);
      ParityLaws(x, y, z);
      ParityLaws(a, z, z);
      ParityLaws(x, b, z);
      FromHalves(XorBits(a, z, k), XorBits(x, b, k));
    } else {
      NoBits(x, y);
      NoBits(XorBits(x, y, k), z);
      NoBits(x, XorBits(y, z, k));
    }
  }

  lemma NoBits(x: nat, y: nat)
    ensures XorBits(x, y, 0) == 0
  {
  }

  lemma {:induction false} OrBitsZero(x: nat, y: nat, k: nat)
    requires x < Pow2(k) && y < Pow2(k)
    ensures OrBits(x, y, k) == 0 <==> x == 0 && y == 0
    decreases k
  {
    if k > 0 {
      OrBitsZero(x / 2, y / 2, k - 1);
    }
  }

  lemma {:induction false} Pow2Add(a: nat, b: nat)
    ensures Pow2(a + b) == Pow2(a) * Pow2(b)
  {
    if b > 0 {
      Pow2Add(a, b - 1);
    }
  }

  lemma {:induction false} XorSmall(x: nat, y: nat, k: nat, b: nat)
    requires x < Pow2(b) && y < Pow2(b)
    ensures XorBits(x, y, k) < Pow2(b)
    decreases k
  {
    if k > 0 {
      if b == 0 {
        XorSmall(x, y, k - 1, 0);
      } else {
        XorSmall(x / 2, y / 2, k - 1, b - 1);
      }
    }
  }

  lemma {:induction false} AndNone(y: nat, k: nat)
    ensures AndBits(0, y, k) == 0
  {
    if k > 0 {
      AndNone(y / 2, k - 1);
    }
  }

  lemma {:induction false} AndOnes(y: nat, k: nat, b: nat)
    requires y < Pow2(b) && b <= k
    ensures AndBits(Pow2(b) - 1, y, k) == y
    decreases k
  {
    if b == 0 {
      AndNone(0, k);
    } else {
      assert (Pow2(b) - 1) / 2 == Pow2(b - 1) - 1 && (Pow2(b) - 1) % 2 == 1;
      AndOnes(y / 2, k - 1, b - 1);
    }
  }

  lemma {:induction false} OrNone(x: nat, k: nat)
    requires x < Pow2(k)
    ensures OrBits(x, 0, k) == x && OrBits(0, x, k) == x
  {
    if k > 0 {
      OrNone(x / 2, k - 1);
    }
  }

  lemma {:induction false} OrSame(x: nat, k: nat)
    requires x < Pow2(k)
    ensures OrBits(x, x, k) == x
  {
    if k > 0 {
      OrSame(x / 2, k - 1);
    }
  }

  lemma AndHalf(x: nat, y: nat, k: nat)
    requires k > 0
    ensures AndBits(x, y, k) / 2 == AndBits(x / 2, y / 2, k - 1)
    ensures AndBits(x, y, k) % 2 == if x % 2 == 1 && y % 2 == 1 then 1 else 0
  {
  }

  /** Bit 8 of a conjunction. */
  lemma AndBit8(x: nat, y: nat, k: nat)
    requires k > 8
    ensures AndBits(x, y, k) / 256 % 2 == if x / 256 % 2 == 1 && y / 256 % 2 == 1 then 1 else 0
  {
    hide AndBits;
    AndShift4(x, y, k);
    AndShift4(x / 16, y / 16, k - 4);
    AndHalf(x / 256, y / 256, k - 8);
    assert x / 16 / 16 == x / 256 && y / 16 / 16 == y / 256;
  }

  lemma AndShift2(x: nat, y: nat, k: nat)
    requires k >= 2
    ensures AndBits(x, y, k) / 4 == AndBits(x / 4, y / 4, k - 2)
  {
    hide AndBits;
    AndHalf(x, y, k);
    AndHalf(x / 2, y / 2, k - 1);
    assert x / 2 / 2 == x / 4 && y / 2 / 2 == y / 4;
  }

  lemma AndShift4(x: nat, y: nat, k: nat)
    requires k >= 4
    ensures AndBits(x, y, k) / 16 == AndBits(x / 16, y / 16, k - 4)
  {
    hide AndBits;
    AndShift2(x, y, k);
    AndShift2(x / 4, y / 4, k - 2);
    assert x / 4 / 4 == x / 16 && y / 4 / 4 == y / 16;
  }

  lemma XorTwice(x: byte, y: byte)
    ensures Xor(Xor(x, y), y) == x
  {
    EightBits();
    XorBitsTwice(x, y, 8);
  }

  lemma XorAssociative(x: byte, y: byte, z: byte)
    ensures Xor(Xor(x, y), z) == Xor(x, Xor(y, z))
  {
    EightBits();
    XorBitsAssociative(x, y, z, 8);
  }

  lemma XorZero(x: byte, y: byte)
    ensures Xor(x, y) == 0 <==> x == y
  {
    EightBits();
    XorBitsZero(x, y, 8);
  }

  lemma XorNone(x: byte)
    ensures Xor(x, 0) == x && Xor(0, x) == x
  {
    EightBits();
    XorBitsNone(x, 8);
    XorBitsCommute(x, 0, 8);
  }

  lemma OrZero(x: byte, y: byte)
    ensures Or(x, y) == 0 <==> x == 0 && y == 0
  {
    EightBits();
    OrBitsZero(x, y, 8);
  }

  /** Byte-wise sum of two strings. */
  function XorAll(a: seq<byte>, b: seq<byte>): (c: seq<byte>)
    requires |a| <= |b|
    ensures |c| == |a| && forall i :: 0 <= i < |a| ==> c[i] == Xor(a[i], b[i])
  {
    seq(|a|, i requires 0 <= i < |a| => Xor(a[i], b[i]))
  }

  lemma XorAllTwice(a: seq<byte>, b: seq<byte>)
    requires |a| <= |b|
    ensures XorAll(XorAll(a, b), b) == a
  {
    hide Xor;
    forall i | 0 <= i < |a| ensures XorAll(XorAll(a, b), b)[i] == a[i] {
      XorTwice(a[i], b[i]);
    }
  }

  lemma XorAllAssociative(a: seq<byte>, b: seq<byte>, c: seq<byte>)
    requires |a| == |b| == |c|
    ensures XorAll(XorAll(a, b), c) == XorAll(a, XorAll(b, c))
  {
    hide Xor;
    forall i | 0 <= i < |a| ensures XorAll(XorAll(a, b), c)[i] == XorAll(a, XorAll(b, c))[i] {
      XorAssociative(a[i], b[i], c[i]);
    }
  }

  function AndAll(a: seq<byte>, b: seq<byte>): (c: seq<byte>)
    requires |a| <= |b|
    ensures |c| == |a| && forall i :: 0 <= i < |a| ==> c[i] == And(a[i], b[i])
  {
    seq(|a|, i requires 0 <= i < |a| => And(a[i], b[i]))
  }

  function Zero(): byte { 0 }

  function Zeros(n: nat): (z: seq<byte>)
    ensures |z| == n && forall i :: 0 <= i < n ==> z[i] == 0
  {
    seq(n, _ => Zero())
  }

  // ------------------------------------------------------- little-endian

  function Pow256(n: nat): (p: nat)
    ensures p > 0
  {
    if n == 0 then 1 else 256 * Pow256(n - 1)
  }

  function Value(s: seq<byte>): (v: nat) {
    if s == [] then 0 else s[0] + 256 * Value(s[1..])
  }

  lemma {:induction false} ValueBound(s: seq<byte>)
    ensures Value(s) < Pow256(|s|)
  {
    if s != [] {
      ValueBound(s[1..]);
    }
  }

  lemma {:induction false} ValueSnoc(s: seq<byte>, b: byte)
    ensures Value(s + [b]) == Value(s) + b * Pow256(|s|)
  {
    if s == [] {
      assert s + [b] == [b] && [b][1..] == [];
    } else {
      assert (s + [b])[1..] == s[1..] + [b];
      ValueSnoc(s[1..], b);
      Regroup(b, Pow256(|s| - 1));
    }
  }

  lemma Regroup(b: nat, p: nat)
    ensures 256 * (b * p) == b * (256 * p)
  {
  }

  lemma {:induction false} ValueInjective(s: seq<byte>, t: seq<byte>)
    requires |s| == |t|
    ensures Value(s) == Value(t) <==> s == t
  {
    if s != [] {
      ValueInjective(s[1..], t[1..]);
      if Value(s) == Value(t) {
        assert s == [s[0]] + s[1..] && t == [t[0]] + t[1..];
      }
    }
  }

  lemma {:induction false} ValueZeros(n: nat)
    ensures Value(Zeros(n)) == 0
  {
    if n > 0 {
      assert Zeros(n)[1..] == Zeros(n - 1);
      ValueZeros(n - 1);
    }
  }

  lemma {:induction false} ValueConcat(s: seq<byte>, t: seq<byte>)
    ensures Value(s + t) == Value(s) + Value(t) * Pow256(|s|)
  {
    if s == [] {
      assert s + t == t;
    } else {
      var v, p := Value(t), Pow256(|s| - 1);
      ValueConcat(s[1..], t);
      ValueFirst(s);
      assert (s + t)[1..] == s[1..] + t;
      ValueFirst(s + t);
      hide Value;
      Regroup(v, p);
    }
  }

  lemma ValueFirst(s: seq<byte>)
    requires s != []
    ensures Value(s) == s[0] + 256 * Value(s[1..])
  {
  }

  /** `STORE64_LE` and its kin: the lowest `n` bytes of `v`. */
  function Little(v: nat, n: nat): (s: seq<byte>)
    ensures |s| == n
  {
    if n == 0 then [] else [v % 256] + Little(v / 256, n - 1)
  }

  /** The operations on small numbers: bit by bit, and lowest byte first. */
  lemma Examples()
    ensures XorBits(12, 10, 4) == 6 && AndBits(12, 10, 4) == 8 && OrBits(12, 10, 4) == 14
    ensures Value([1, 2]) == 513 && Little(513, 2) == [1, 2]
  {
    var s: seq<byte> := [1, 2];
    assert s[1..] == [2] && s[1..][1..] == [];
    assert Value(s[1..]) == 2;
    assert Little(2, 1) == [2] + Little(0, 0) && Little(513, 2) == [1] + Little(2, 1);
  }

  lemma {:induction false} ValueLittle(v: nat, n: nat)
    requires v < Pow256(n)
    ensures Value(Little(v, n)) == v
  {
    if n > 0 {
      ValueLittle(v / 256, n - 1);
      assert Little(v, n)[1..] == Little(v / 256, n - 1);
    }
  }

  lemma {:induction false} LittleValue(s: seq<byte>)
    ensures Little(Value(s), |s|) == s
  {
    if s != [] {
      var t := s[1..];
      LittleValue(t);
      ValueFirst(s);
      hide Value;
      DivModUnique(Value(t), s[0], 256);
      assert Little(Value(s), |s|) == [s[0]] + Little(Value(t), |t|);
      assert [s[0]] + t == s;
    }
  }

  /** `memcpy` into the middle of a buffer. */
  method CopyInto(out: array<byte>, at: nat, data: seq<byte>)
    requires at + |data| <= out.Length
    modifies out
    ensures out[..at] == old(out[..at]) && out[at..at + |data|] == data
    ensures out[at + |data|..] == old(out[at + |data|..])
  {
    for i := 0 to |data|
      invariant forall k :: 0 <= k < out.Length ==>
          out[k] == if at <= k < at + i then data[k - at] else old(out[k])
    {
      out[at + i] := data[i];
    }
  }
}
