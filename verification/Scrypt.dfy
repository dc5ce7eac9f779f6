/**
 scrypt parameters chosen from operation and memory limits, their text form, and the check
 whether a stored string still matches the limits.
 */
module Scrypt {
  import opened Machine
  import opened Bytes

  const LEAST_OPS: u64 := 32768
  const BLOCK_R: u32 := 8

  datatype Params = Params(nLog2: nat, p: u32, r: u32)

  // ----------------------------------------------------------- pickparams

  /** The first exponent from 1 on, at most 63, whose power exceeds half of `maxN`. */
  function Exponent(maxN: nat, k: nat): nat
    requires k <= 63
    decreases 63 - k
  {
    if k == 63 || Pow2(k) > maxN / 2 then k else Exponent(maxN, k + 1)
  }

  lemma {:induction false} ExponentBounds(maxN: nat, k: nat)
    requires 1 <= k <= 63 && (k == 1 || Pow2(k) <= maxN)
    ensures k <= Exponent(maxN, k) <= 63
    ensures Exponent(maxN, k) == 1 || Pow2(Exponent(maxN, k)) <= maxN
    ensures Exponent(maxN, k) == 63 || Pow2(Exponent(maxN, k)) > maxN / 2
    decreases 63 - k
  {
    if k != 63 && Pow2(k) <= maxN / 2 {
      assert Pow2(k + 1) == 2 * Pow2(k);
      ExponentBounds(maxN, k + 1);
    }
  }

  function MaxRp(ops: nat, n: nat): nat
    requires n > 0
  {
    if Quotient(ops / 4, n) > 0x3fff_ffff then 0x3fff_ffff else Quotient(ops / 4, n)
  }

  /** The parameters as a function of the limits. */
  function Picked(opslimit: u64, memlimit: u64): Params {
    var ops := if opslimit < LEAST_OPS then LEAST_OPS else opslimit;
    if ops < memlimit / 32 then Params(Exponent(ops / 32, 1), 1, BLOCK_R)
    else
      var k := Exponent(memlimit / 1024, 1);
      Params(k, MaxRp(ops, Pow2(k)) / BLOCK_R, BLOCK_R)
  }

  /** `pickparams`. */
  method PickParams(opslimit: u64, memlimit: u64) returns (nLog2: nat, p: u32, r: u32)
    ensures Params(nLog2, p, r) == Picked(opslimit, memlimit)
  {
    hide Quotient;
    var ops := opslimit;
    if ops < LEAST_OPS {
      ops := LEAST_OPS;
    }
    r := BLOCK_R;
    if ops < memlimit / 32 {
      p := 1;
      var maxN := ops / 32;
      nLog2 := 1;
      while nLog2 < 63 && Pow2(nLog2) <= maxN / 2
        invariant 1 <= nLog2 <= 63 && Exponent(maxN, nLog2) == Exponent(maxN, 1)
      {
        nLog2 := nLog2 + 1;
      }
    } else {
      var maxN := memlimit / 1024;
      nLog2 := 1;
      while nLog2 < 63 && Pow2(nLog2) <= maxN / 2
        invariant 1 <= nLog2 <= 63 && Exponent(maxN, nLog2) == Exponent(maxN, 1)
      {
        nLog2 := nLog2 + 1;
      }
      var maxrp := Quotient(ops / 4, Pow2(nLog2));
      if maxrp > 0x3fff_ffff {
        maxrp := 0x3fff_ffff;
      }
      p := maxrp / r;
    }
  }

  /** 4 N r p, the operations, and 128 N r, the memory in bytes. */
  function Operations(x: Params): nat { 4 * (Pow2(x.nLog2) * (x.r * x.p)) }
  function Memory(x: Params): nat { 128 * (Pow2(x.nLog2) * x.r) }

  /** For all limits the parameters are in range and the operations within the limit; the memory is within its limit
      exactly when the limit allows the smallest N at all. */
  lemma PickedWithinLimits(opslimit: u64, memlimit: u64)
    ensures var x := Picked(opslimit, memlimit);
            && 1 <= x.nLog2 <= 63 && x.r == 8 && x.p >= 1 && x.r * x.p < 0x4000_0000
            && Operations(x) <= (if opslimit < LEAST_OPS then LEAST_OPS else opslimit)
            && (Memory(x) <= memlimit <==> memlimit >= 2048)
  {
    hide Quotient, Exponent, Pow2;
    var ops: nat := if opslimit < LEAST_OPS then LEAST_OPS else opslimit;
    assert Pow2(1) == 2 by { TwoIsTwo(); }
    if ops < memlimit / 32 {
      ExponentBounds(ops / 32, 1);
    } else {
      var k := Exponent(memlimit / 1024, 1);
      ExponentBounds(memlimit / 1024, 1);
      ManyBounds(ops, Pow2(k));
      AtLeastTwo(k);
    }
  }

  /** And they are the largest: N the largest power of two within the operations limit (p is 1 then) or within the
      memory limit, and in that case p the largest number within the operations limit and r p below 2^30. */
  lemma PickedIsLargest(opslimit: u64, memlimit: u64)
    ensures var x := Picked(opslimit, memlimit);
            var ops: nat := if opslimit < 32768 then 32768 else opslimit;
            if ops < memlimit / 32
            then x.p == 1 && Operations(x.(nLog2 := x.nLog2 + 1)) > ops
            else && Memory(x.(nLog2 := x.nLog2 + 1)) > memlimit && (x.nLog2 == 1 || Memory(x) <= memlimit)
                 && (Operations(x.(p := Wrap32(x.p + 1))) > ops || 8 * (x.p + 1) >= 0x4000_0000)
  {
    hide Quotient, Exponent, Pow2, Operations, Memory, MaxRp;
    var ops: nat := if opslimit < LEAST_OPS then LEAST_OPS else opslimit;
    var maxN: nat := if ops < memlimit / 32 then ops / 32 else memlimit / 1024;
    var k := Exponent(maxN, 1);
    TwoIsTwo();
    ExponentBounds(maxN, 1);
    ExponentLargest(maxN);
    if ops < memlimit / 32 {
      MoreOperations(ops, Picked(opslimit, memlimit));
    } else {
      MoreMemory(memlimit, Picked(opslimit, memlimit));
      MoreBlocks(ops, Picked(opslimit, memlimit));
    }
  }

  lemma MoreOperations(ops: nat, x: Params)
    requires x.p == 1 && x.r == 8 && ops / 32 < 2 * Pow2(x.nLog2)
    ensures Operations(x.(nLog2 := x.nLog2 + 1)) > ops
  {
    NextPower(x.nLog2);
  }

  lemma MoreMemory(memlimit: nat, x: Params)
    requires x.r == 8 && memlimit / 1024 < 2 * Pow2(x.nLog2)
    ensures Memory(x.(nLog2 := x.nLog2 + 1)) > memlimit
    ensures Pow2(x.nLog2) <= memlimit / 1024 ==> Memory(x) <= memlimit
  {
    NextPower(x.nLog2);
  }

  lemma WrapsNot(v: nat)
    requires v < U32
    ensures Wrap32(v) == v
  {
  }

  lemma MoreBlocks(ops: nat, x: Params)
    requires x.r == 8 && x.p == MaxRp(ops, Pow2(x.nLog2)) / 8
    ensures Operations(x.(p := Wrap32(x.p + 1))) > ops || 8 * (x.p + 1) >= 0x4000_0000
  {
    var n, m := Pow2(x.nLog2), 8 * (x.p + 1);
    assert MaxRp(ops, n) <= 0x3fff_ffff;
    hide MaxRp, Pow2, Wrap32;
    BelowCap(MaxRp(ops, n));
    if m < 0x4000_0000 {
      LargestRp(ops, n, m);
      WrapsNot(x.p + 1);
    }
  }

  lemma NextPower(k: nat)
    ensures Pow2(k + 1) == 2 * Pow2(k)
  {
  }

  lemma ExponentLargest(maxN: nat)
    requires maxN < 0x1_0000_0000_0000_0000
    ensures 1 <= Exponent(maxN, 1) && 2 * Pow2(Exponent(maxN, 1)) > maxN
  {
    TwoIsTwo();
    ExponentBounds(maxN, 1);
    Pow63();
  }

  lemma Pow63()
    ensures Pow2(63) == 0x8000_0000_0000_0000
  {
    ThirtyTwo();
    hide Pow2;
    Pow2Add(30, 30);
    Pow2Add(60, 3);
    Eight();
  }

  lemma Eight()
    ensures Pow2(3) == 8
  {
    assert Pow2(1) == 2 && Pow2(2) == 4;
  }

  lemma BelowCap(m: nat)
    requires m <= 0x3fff_ffff
    ensures 8 * (m / 8) <= m < 8 * (m / 8 + 1) && m / 8 + 1 < U32
  {
  }

  lemma FourTimes(ops: nat, w: nat, v: nat)
    requires ops / 4 < w <= v
    ensures 4 * v > ops
  {
  }

  lemma Swap(n: nat, m: nat)
    ensures n * m == m * n
  {
  }

  /** One more block would be too much, or the cap is reached. */
  lemma LargestRp(ops: nat, n: nat, m: nat)
    requires n > 0 && MaxRp(ops, n) < m < 0x4000_0000
    ensures 4 * (n * m) > ops
  {
    var q := Quotient(ops / 4, n);
    Floor(ops / 4, n);
    hide Quotient;
    MulMono(q + 1, m, n);
    assert (q + 1) * n == q * n + n;
    Swap(n, m);
    FourTimes(ops, (q + 1) * n, n * m);
  }

  /** Whatever the operations limit, 2047 bytes are not enough for the parameters picked under that limit. */
  lemma OneByteShort(opslimit: u64)
    ensures Memory(Picked(opslimit, 2047)) > 2047
  {
    hide Picked;
    PickedWithinLimits(opslimit, 2047);
  }

  lemma AtLeastTwo(k: nat)
    requires k >= 1
    ensures Pow2(k) >= 2
  {
  }

  lemma TwoIsTwo()
    ensures Pow2(1) == 2
  {
  }

  lemma EightParts(m: nat)
    ensures 8 * (m / 8) <= m && (m >= 8 ==> m / 8 >= 1)
  {
  }

  lemma MulKeeps(a: nat, b: nat, n: nat)
    ensures a <= b ==> a * n <= b * n
  {
    if a <= b {
      MulMono(a, b, n);
    }
  }

  lemma QuotientBounds(ops: nat, n: nat)
    requires n > 0 && 32 * n <= ops
    ensures 8 <= MaxRp(ops, n) <= 0x3fff_ffff && 4 * (MaxRp(ops, n) * n) <= ops
  {
    var q := Quotient(ops / 4, n);
    Floor(ops / 4, n);
    hide Quotient;
    MulKeeps(q + 1, 8, n);
    MulMono(MaxRp(ops, n), q, n);
  }

  /** The number of parallel blocks when N leaves room for eight of them. */
  lemma ManyBounds(ops: nat, n: nat)
    requires n > 0 && 32 * n <= ops
    ensures var p := MaxRp(ops, n) / 8; 1 <= p && 8 * p < 0x4000_0000 && 4 * (n * (8 * p)) <= ops
  {
    hide MaxRp;
    var m := MaxRp(ops, n);
    QuotientBounds(ops, n);
    EightParts(m);
    MulMono(8 * (m / 8), m, n);
    assert n * (8 * (m / 8)) == 8 * (m / 8) * n;
  }

  // ------------------------------------------------------------ text form

  /** `itoa64`. */
  function Letter(d: nat): byte
    requires d < 64
  {
    if d < 12 then 46 + d else if d < 38 then 65 + (d - 12) else 97 + (d - 38)
  }

  /** The letters are `./0-9A-Za-z`. */
  lemma LettersAre(d: nat)
    requires d < 64
    ensures Letter(0) == '.' as int && Letter(1) == '/' as int && Letter(2) == '0' as int && Letter(11) == '9' as int
    ensures Letter(12) == 'A' as int && Letter(37) == 'Z' as int && Letter(38) == 'a' as int && Letter(63) == 'z' as int
    ensures d < 63 && d != 11 && d != 37 ==> Letter(d + 1) == Letter(d) + 1
  {
  }

  /** `strchr(itoa64, c) - itoa64`, or 64 past the end; the terminator is found at position 64. */
  function Place(c: byte): (d: nat)
    ensures d <= 65
  {
    if 46 <= c < 58 then c - 46
    else if 65 <= c < 91 then c - 65 + 12
    else if 97 <= c < 123 then c - 97 + 38
    else if c == 0 then 64
    else 65
  }

  lemma LetterPlace(d: nat, c: byte)
    requires d < 64
    ensures Place(Letter(d)) == d && Letter(d) != 0
    ensures Place(c) < 64 ==> Letter(Place(c)) == c
    ensures Place(c) < 64 <==> Place(c) != 65 && c != 0
  {
  }

  /** `encode64_uint32`: six bits a letter, lowest first. */
  function Encode(v: nat, n: nat): (s: seq<byte>)
    ensures |s| == n
  {
    if n == 0 then [] else [Letter(v % 64)] + Encode(v / 64, n - 1)
  }

  function Or32(x: nat, y: nat): (z: nat)
    ensures z < U32
  {
    ThirtyTwo();
    OrBits(x, y, 32)
  }

  lemma ThirtyTwo()
    ensures Pow2(32) == U32 && Pow2(30) == 0x4000_0000
  {
    EightBits();
    assert Pow2(16) == 0x1_0000 by {
      assert Pow2(16) == 2 * Pow2(15) && Pow2(15) == 2 * Pow2(14) && Pow2(14) == 2 * Pow2(13)
          && Pow2(13) == 2 * Pow2(12);
      assert Pow2(12) == 2 * Pow2(11) && Pow2(11) == 2 * Pow2(10) && Pow2(10) == 2 * Pow2(9) && Pow2(9) == 2 * Pow2(8);
    }
    assert Pow2(24) == 0x100_0000 by {
      assert Pow2(24) == 2 * Pow2(23) && Pow2(23) == 2 * Pow2(22) && Pow2(22) == 2 * Pow2(21)
          && Pow2(21) == 2 * Pow2(20);
      assert Pow2(20) == 2 * Pow2(19) && Pow2(19) == 2 * Pow2(18) && Pow2(18) == 2 * Pow2(17)
          && Pow2(17) == 2 * Pow2(16);
    }
    assert Pow2(32) == 2 * Pow2(31) && Pow2(31) == 2 * Pow2(30) && Pow2(30) == 2 * Pow2(29) && Pow2(29) == 2 * Pow2(28);
    assert Pow2(28) == 2 * Pow2(27) && Pow2(27) == 2 * Pow2(26) && Pow2(26) == 2 * Pow2(25) && Pow2(25) == 2 * Pow2(24);
  }

  /** `d << 6n`. */
  function Scaled(d: nat, n: nat): nat { d * Pow2(6 * n) }

  datatype Decoded = Bad | Value(v: nat)

  /** The letters of `s` put together with OR, each six places above the one before. */
  function Decode(s: seq<byte>): Decoded {
    if s == [] then Value(0) else
    var front, d := Decode(s[..|s| - 1]), Place(s[|s| - 1]);
    if front.Bad? || d == 65 then Bad else Value(Or32(front.v, Wrap32(Scaled(d, |s| - 1))))
  }

  // ---------------------------------------------------- letters and values

  /** OR with a multiple of a power above the value is addition. */
  lemma {:induction false} OrDisjoint(v: nat, d: nat, b: nat, k: nat)
    requires v < Pow2(b) && b <= k && d * Pow2(b) < Pow2(k)
    ensures OrBits(v, d * Pow2(b), k) == v + d * Pow2(b)
    decreases k
  {
    if b == 0 {
      OrNone(d, k);
    } else {
      var p := d * Pow2(b - 1);
      assert d * Pow2(b) == 2 * p;
      OrDisjoint(v / 2, d, b - 1, k - 1);
    }
  }

  lemma {:induction false} Pow64(n: nat)
    ensures Pow2(6 * (n + 1)) == 64 * Pow2(6 * n)
  {
    var m := 6 * n;
    assert Pow2(m + 6) == 2 * Pow2(m + 5) && Pow2(m + 5) == 2 * Pow2(m + 4) && Pow2(m + 4) == 2 * Pow2(m + 3);
    assert Pow2(m + 3) == 2 * Pow2(m + 2) && Pow2(m + 2) == 2 * Pow2(m + 1) && Pow2(m + 1) == 2 * Pow2(m);
  }

  lemma {:induction false} PowMono(a: nat, b: nat)
    requires a <= b
    ensures Pow2(a) <= Pow2(b)
  {
    if a < b {
      PowMono(a, b - 1);
    }
  }

  predicate NoTerminator(s: seq<byte>) { forall i :: 0 <= i < |s| ==> s[i] != 0 }

  lemma ScaledBounds(d: nat, n: nat)
    requires d < 64
    ensures Scaled(d, n) + Pow2(6 * n) <= Pow2(6 * (n + 1))
  {
    hide Pow2;
    Pow64(n);
    MulMono(d + 1, 64, Pow2(6 * n));
  }

  lemma ScaledStep(d: nat, n: nat)
    ensures Scaled(d, n + 1) == 64 * Scaled(d, n) && Scaled(d, 0) == d
  {
    Pow64(n);
    var p := Pow2(6 * n);
    assert d * (64 * p) == 64 * (d * p);
  }

  lemma DecodeUnfold(s: seq<byte>, c: byte)
    requires Place(c) != 65 && Decode(s).Value?
    ensures Decode(s + [c]) == Value(Or32(Decode(s).v, Wrap32(Scaled(Place(c), |s|))))
  {
    hide OrBits, Place, Scaled, Or32, Wrap32;
    assert (s + [c])[..|s|] == s && (s + [c])[|s|] == c;
  }

  /** One more letter above the ones read. */
  lemma DecodeSnoc(s: seq<byte>, c: byte)
    requires |s| < 5 && Place(c) < 64 && Decode(s).Value? && Decode(s).v < Pow2(6 * |s|)
    ensures Decode(s + [c]) == Value(Decode(s).v + Scaled(Place(c), |s|))
    ensures Decode(s + [c]).v < Pow2(6 * (|s| + 1))
  {
    hide OrBits, Place, Pow2, Scaled, Decode;
    var n, d, v := |s|, Place(c), Decode(s).v;
    DecodeUnfold(s, c);
    ScaledBounds(d, n);
    PowMono(6 * (n + 1), 30);
    ThirtyTwo();
    assert Wrap32(Scaled(d, n)) == Scaled(d, n);
    OrScaled(v, d, n);
  }

  lemma OrScaled(v: nat, d: nat, n: nat)
    requires n < 5 && v < Pow2(6 * n) && Scaled(d, n) < U32
    ensures OrBits(v, Scaled(d, n), 32) == v + Scaled(d, n)
  {
    ThirtyTwo();
    OrDisjoint(v, d, 6 * n, 32);
  }

  /** Reading letters that encode a number gives the number. */
  lemma {:induction false} DecodeEncode(v: nat, n: nat)
    requires n <= 5 && v < Pow2(6 * n)
    ensures Decode(Encode(v, n)) == Value(v)
    decreases n
  {
    if n > 0 {
      hide Place, Letter, OrBits, Pow2, Decode;
      var low, high := Low(v, n - 1), High(v, n - 1);
      Pow64(n - 1);
      SplitDigits(v, n - 1);
      EncodeSnoc(v, n - 1);
      DecodeEncode(low, n - 1);
      LetterPlace(high, 0);
      DecodeSnoc(Encode(low, n - 1), Letter(high));
    } else {
      NothingDecoded();
      ZeroBits();
      assert Encode(v, 0) == [];
    }
  }

  lemma NothingDecoded()
    ensures Decode([]) == Value(0)
  {
  }

  lemma ZeroBits()
    ensures Pow2(0) == 1
  {
  }

  /** The lowest `n` base-64 digits and the digit after them. */
  function Low(v: nat, n: nat): nat { if n == 0 then 0 else v % 64 + 64 * Low(v / 64, n - 1) }
  function High(v: nat, n: nat): nat
  {
    if n == 0 then v % 64 else High(v / 64, n - 1)
  }

  lemma {:induction false} SplitDigits(v: nat, n: nat)
    requires v < 64 * Pow2(6 * n)
    ensures Low(v, n) < Pow2(6 * n) && High(v, n) < 64 && v == Low(v, n) + Scaled(High(v, n), n)
    decreases n
  {
    ZeroBits();
    ScaledStep(High(v, n), if n == 0 then 0 else n - 1);
    if n > 0 {
      hide Pow2, Scaled;
      Pow64(n - 1);
      SplitDigits(v / 64, n - 1);
    }
  }

  lemma EncodeStep(v: nat, n: nat)
    ensures Encode(v, 0) == [] && Encode(v, n + 1) == [Letter(v % 64)] + Encode(v / 64, n)
  {
  }

  lemma LowStep(v: nat, n: nat)
    ensures Low(v, n + 1) % 64 == v % 64 && Low(v, n + 1) / 64 == Low(v / 64, n)
    ensures High(v, n + 1) == High(v / 64, n) && High(v, 0) == v % 64
  {
  }

  lemma {:induction false} EncodeSnoc(v: nat, n: nat)
    ensures High(v, n) < 64 && Encode(v, n + 1) == Encode(Low(v, n), n) + [Letter(High(v, n))]
    decreases n
  {
    hide Letter, Encode, Low, High;
    EncodeStep(v, n);
    if n == 0 {
      LowStep(v, 0);
      EncodeStep(v / 64, 0);
      EncodeStep(Low(v, 0), 0);
    } else {
      LowStep(v, n - 1);
      EncodeSnoc(v / 64, n - 1);
      EncodeStep(Low(v, n), n - 1);
      var x, y, z := [Letter(v % 64)], Encode(Low(v / 64, n - 1), n - 1), [Letter(High(v, n))];
      assert x + (y + z) == (x + y) + z;
    }
  }

  /** Letters that were read are what printing the value gives, exactly when there is no terminator among them. */
  lemma {:induction false} EncodeDecode(s: seq<byte>)
    requires |s| <= 5 && Decode(s).Value?
    ensures NoTerminator(s) ==> Decode(s).v < Pow2(6 * |s|)
    ensures Encode(Decode(s).v, |s|) == s <==> NoTerminator(s)
    decreases |s|
  {
    EncodedHasNone(Decode(s).v, |s|);
    if NoTerminator(s) {
      EncodeRead(s);
    }
  }

  lemma {:induction false} EncodedHasNone(v: nat, n: nat)
    ensures NoTerminator(Encode(v, n))
  {
    if n > 0 {
      EncodedHasNone(v / 64, n - 1);
    }
  }

  lemma {:induction false} EncodeRead(s: seq<byte>)
    requires |s| <= 5 && Decode(s).Value? && NoTerminator(s)
    ensures Decode(s).v < Pow2(6 * |s|) && Encode(Decode(s).v, |s|) == s
    decreases |s|
  {
    ZeroBits();
    if s != [] {
      var front, c := s[..|s| - 1], s[|s| - 1];
      var n, d := |front|, Place(c);
      LetterPlace(0, c);
      EncodeRead(front);
      assert front + [c] == s;
      DecodeSnoc(front, c);
      hide Place, Letter, OrBits, Pow2, Decode;
      var v, u := Decode(s).v, Decode(front).v;
      EncodeSnoc(v, n);
      Pow64(n);
      SplitDigits(v, n);
      SameDigits(u, d, Low(v, n), High(v, n), n);
    }
  }

  lemma SameDigits(u: nat, d: nat, u': nat, d': nat, n: nat)
    requires u < Pow2(6 * n) && u' < Pow2(6 * n) && u + Scaled(d, n) == u' + Scaled(d', n)
    ensures u == u' && d == d'
  {
    EuclidUnique(d, u, d', u', Pow2(6 * n));
  }

  // ------------------------------------------------------------- settings

  const STRBYTES := 102
  const PREFIX := 14

  /** The settings part of a stored string. */
  function Setting(x: Params): (s: seq<byte>)
    requires x.nLog2 <= 63
    ensures |s| == PREFIX
  {
    ['$' as int, '7' as int, '$' as int, Letter(x.nLog2)] + Encode(x.r, 5) + Encode(x.p, 5)
  }

  /** The usual prefix for N = 2^14, r = 8 and p = 1: `$7$C6..../....`. */
  lemma SettingExample()
    ensures Setting(Params(14, 1, 8)) ==
            ['$' as int, '7' as int, '$' as int, 'C' as int, '6' as int, '.' as int, '.' as int, '.' as int, '.' as int,
             '/' as int, '.' as int, '.' as int, '.' as int, '.' as int]
  {
    SmallNumber(8, 5);
    SmallNumber(1, 5);
    NoNumber(4);
  }

  lemma SmallNumber(v: nat, n: nat)
    requires v < 64 && n > 0
    ensures Encode(v, n) == [Letter(v)] + Encode(0, n - 1)
  {
  }

  lemma {:induction false} NoNumber(n: nat)
    ensures forall i :: 0 <= i < n ==> Encode(0, n)[i] == '.' as int
  {
    if n > 0 {
      NoNumber(n - 1);
      assert Encode(0, n) == ['.' as int] + Encode(0, n - 1);
    }
  }

  /** Characters of base-64 text for `n` bytes. */
  function Chars(n: nat): nat { (n * 8 + 5) / 6 }

  /** `encode64`: three bytes at a time, lowest first. */
  function EncodeBytes(src: seq<byte>): (s: seq<byte>)
    ensures |s| == Chars(|src|)
  {
    if src == [] then []
    else if |src| == 1 then Encode(src[0], 2)
    else if |src| == 2 then Encode(src[0] as int + 0x100 * src[1] as int, 3)
    else
      var v := src[0] as int + 0x100 * src[1] as int + 0x1_0000 * src[2] as int;
      Encode(v, 4) + EncodeBytes(src[3..])
  }

  /** Three bytes are the digits of a number of 24 bits, first byte lowest; one or two bytes at the end are a number of
      8 or 16 bits. */
  lemma EncodeBytesIs(src: seq<byte>, rest: seq<byte>)
    ensures |src| == 3 ==> EncodeBytes(src + rest) == Encode(Bytes.Value(src), 4) + EncodeBytes(rest)
    ensures |src| == 1 || |src| == 2 ==> EncodeBytes(src) == Encode(Bytes.Value(src), |src| + 1)
    ensures EncodeBytes([]) == []
  {
    hide Encode;
    if |src| == 3 {
      assert (src + rest)[3..] == rest && (src + rest)[..3] == src;
      var a, b := src[1..], src[2..];
      assert a[1..] == b && b[1..] == [] && a[0] == src[1] && b[0] == src[2];
      assert Bytes.Value(b) == b[0] && Bytes.Value(a) == a[0] as int + 256 * Bytes.Value(b);
    } else if |src| == 2 {
      var a := src[1..];
      assert a[1..] == [] && a[0] == src[1] && Bytes.Value(a) == a[0];
    } else if |src| == 1 {
      assert src[1..] == [];
    }
  }

  /** `escrypt_gensalt_r` into a buffer of `buflen` bytes: the settings and the salt, or nothing. */
  datatype Salted = Refused | Text(s: seq<byte>)

  function Gensalt(x: Params, src: seq<byte>, buflen: nat): Salted {
    if PREFIX + Chars(|src|) + 1 > buflen then Refused
    else if x.nLog2 > 63 || x.r * x.p >= 0x4000_0000 then Refused
    else Text(Setting(x) + EncodeBytes(src))
  }

  /** `encode64_uint32` for 30 bits. */
  method EncodeWord(v: u32) returns (dst: seq<byte>)
    ensures dst == Encode(v, 5)
  {
    hide Letter;
    dst := [];
    var src: nat := v;
    var bit := 0;
    while bit < 30
      invariant bit == 6 * |dst| && |dst| <= 5
      invariant dst + Encode(src, 5 - |dst|) == Encode(v, 5)
    {
      assert dst + ([Letter(src % 64)] + Encode(src / 64, 4 - |dst|))
          == dst + [Letter(src % 64)] + Encode(src / 64, 4 - |dst|);
      dst := dst + [Letter(src % 64)];
      src := src / 64;
      bit := bit + 6;
    }
    assert dst + [] == dst;
  }

  /** `decode64_uint32` for 30 bits. */
  method DecodeWord(src: seq<byte>) returns (r: Decoded)
    requires |src| == 5
    ensures r == Decode(src)
  {
    hide Place, OrBits, Pow2;
    var value := 0;
    var bit := 0;
    ghost var n := 0;
    NothingDecoded();
    while bit < 30
      invariant bit == 6 * n && n <= 5 && Decode(src[..n]) == Value(value)
    {
      var i := bit / 6;
      assert i == n && src[..n + 1][..n] == src[..n];
      var one := Place(src[i]);
      if one == 65 {
        BadStays(src, n + 1);
        return Bad;
      }
      value := Or32(value, Wrap32(Scaled(one, i)));
      bit, n := bit + 6, n + 1;
    }
    assert src[..5] == src;
    return Value(value);
  }

  lemma {:induction false} BadStays(src: seq<byte>, n: nat)
    requires n <= |src| && Decode(src[..n]).Bad?
    ensures Decode(src).Bad?
    decreases |src|
  {
    if n < |src| {
      assert src[..|src| - 1][..n] == src[..n];
      BadStays(src[..|src| - 1], n);
    } else {
      assert src[..n] == src;
    }
  }

  datatype Parsed = Invalid | Settings(x: Params)

  /** `escrypt_parse_setting` on a buffer of at least `PREFIX` bytes. */
  function Parse(s: seq<byte>): Parsed
    requires |s| >= PREFIX
  {
    if s[0] != '$' as int || s[1] != '7' as int || s[2] != '$' as int || Place(s[3]) == 65 then Invalid else
    var r, p := Decode(s[4..9]), Decode(s[9..14]);
    if r.Bad? || p.Bad? then Invalid else Settings(Params(Place(s[3]), Word(p.v), Word(r.v)))
  }

  function Word(v: nat): u32 { Wrap32(v) }

  /** Parsing a printed setting, whatever follows it, gives the parameters back. */
  lemma ParseSetting(x: Params, rest: seq<byte>)
    requires x.nLog2 <= 63 && x.r < 0x4000_0000 && x.p < 0x4000_0000
    ensures Parse(Setting(x) + rest) == Settings(x)
  {
    hide Letter, Place, Decode, Encode, Pow2;
    ThirtyTwo();
    LetterPlace(x.nLog2, 0);
    DecodeEncode(x.r, 5);
    DecodeEncode(x.p, 5);
    var s := Setting(x) + rest;
    assert s[4..9] == Encode(x.r, 5) && s[9..14] == Encode(x.p, 5);
  }

  /** A parsed prefix is the printed form of its parameters exactly when no terminator was read as a digit. */
  lemma SettingParsed(s: seq<byte>)
    requires |s| >= PREFIX && Parse(s).Settings?
    ensures var x := Parse(s).x;
            (x.nLog2 <= 63 && s[..PREFIX] == Setting(x)) <==> NoTerminator(s[..PREFIX])
  {
    hide Letter, Place, Decode, Encode, Pow2;
    ThirtyTwo();
    var x, t := Parse(s).x, s[..PREFIX];
    var r, p := s[4..9], s[9..14];
    LetterPlace(0, s[3]);
    EncodeDecode(r);
    EncodeDecode(p);
    OrBound(r);
    OrBound(p);
    assert t == [s[0], s[1], s[2], s[3]] + r + p;
    if x.nLog2 <= 63 {
      LetterPlace(x.nLog2, s[3]);
      var u := Setting(x);
      assert u[3] == Letter(x.nLog2) && u[4..9] == Encode(x.r, 5) && u[9..14] == Encode(x.p, 5);
      if t == u {
        assert t[4..9] == r && t[9..14] == p;
      }
    }
    TerminatorParts(t, [s[0], s[1], s[2], s[3]], r, p);
  }

  /** The parser alone takes a terminator for a digit: here it reads an exponent of 64. */
  lemma TerminatorRead()
    ensures Parse(Setting(Params(0, 0, 0))[3 := 0]) == Settings(Params(64, 0, 0))
  {
    hide Decode, Encode;
    var u := Setting(Params(0, 0, 0));
    var s := u[3 := 0];
    DecodeEncode(0, 5);
    assert s[4..9] == u[4..9] == Encode(0, 5) && s[9..14] == u[9..14] == Encode(0, 5);
  }

  lemma TerminatorParts(t: seq<byte>, a: seq<byte>, r: seq<byte>, p: seq<byte>)
    requires t == a + r + p
    ensures NoTerminator(t) <==> NoTerminator(a) && NoTerminator(r) && NoTerminator(p)
  {
    if NoTerminator(t) {
      forall i | 0 <= i < |r| ensures r[i] != 0 {
        assert t[|a| + i] == r[i];
      }
      forall i | 0 <= i < |p| ensures p[i] != 0 {
        assert t[|a| + |r| + i] == p[i];
      }
      forall i | 0 <= i < |a| ensures a[i] != 0 {
        assert t[i] == a[i];
      }
    }
  }

  lemma OrBound(s: seq<byte>)
    requires Decode(s).Value?
    ensures Decode(s).v < U32
  {
  }

  // --------------------------------------------------------- needs_rehash

  /** `sodium_strnlen`. */
  function Strnlen(s: seq<byte>): nat { if s == [] || s[0] == 0 then 0 else 1 + Strnlen(s[1..]) }

  /** 0 when the string was made with the parameters of these limits, 1 when not, -1 when it is not such a string. */
  function NeedsRehash(str: seq<byte>, opslimit: u64, memlimit: u64): int
    requires |str| == STRBYTES
  {
    if Strnlen(str) != STRBYTES - 1 then -1
    else if Parse(str).Invalid? then -1
    else if Parse(str).x != Picked(opslimit, memlimit) then 1 else 0
  }

  lemma {:induction false} StrnlenPrefix(s: seq<byte>)
    ensures Strnlen(s) <= |s| && NoTerminator(s[..Strnlen(s)])
  {
    if s != [] && s[0] != 0 {
      StrnlenPrefix(s[1..]);
      forall i | 0 <= i < Strnlen(s) ensures s[..Strnlen(s)][i] != 0 {
        if i > 0 {
          assert s[i] == s[1..][..Strnlen(s[1..])][i - 1];
        }
      }
    }
  }

  /** A stored string that passes the length check and the parser starts with the printed form of its parameters:
      no terminator can have been read as a digit. */
  lemma StoredPrefix(str: seq<byte>, opslimit: u64, memlimit: u64)
    requires |str| == STRBYTES && NeedsRehash(str, opslimit, memlimit) != -1
    ensures Parse(str).Settings? && Parse(str).x.nLog2 <= 63 && str[..PREFIX] == Setting(Parse(str).x)
  {
    hide Parse, Setting, Strnlen, Picked;
    StrnlenPrefix(str);
    SettingParsed(str);
    assert forall i :: 0 <= i < PREFIX ==> str[..PREFIX][i] == str[..STRBYTES - 1][i];
  }

  lemma {:induction false} FullLength(s: seq<byte>)
    requires NoTerminator(s)
    ensures Strnlen(s + [0]) == |s|
  {
    if s != [] {
      assert (s + [0])[1..] == s[1..] + [0];
      FullLength(s[1..]);
    }
  }

  lemma {:induction false} SaltHasNone(src: seq<byte>)
    ensures NoTerminator(EncodeBytes(src))
    decreases |src|
  {
    hide Letter;
    if |src| == 1 {
      EncodedHasNone(src[0], 2);
    } else if |src| == 2 {
      EncodedHasNone(src[0] as int + 0x100 * src[1] as int, 3);
    } else if |src| > 2 {
      EncodedHasNone(src[0] as int + 0x100 * src[1] as int + 0x1_0000 * src[2] as int, 4);
      SaltHasNone(src[3..]);
    }
  }

  lemma SettingHasNone(x: Params)
    requires x.nLog2 <= 63
    ensures NoTerminator(Setting(x))
  {
    hide Letter;
    LetterPlace(x.nLog2, 0);
    EncodedHasNone(x.r, 5);
    EncodedHasNone(x.p, 5);
  }

  /** The salt is never refused, and a string stored under some limits needs no rehash under other limits exactly when
      both pick the same parameters; in particular never under its own. */
  lemma StoredStringMatches(ops: u64, mem: u64, ops': u64, mem': u64, salt: seq<byte>, hash: seq<byte>)
    requires |salt| == 32 && |hash| == 32
    ensures var x := Picked(ops, mem);
            && Gensalt(x, salt, 58).Text?
            && var str := Gensalt(x, salt, 58).s + ['$' as int] + EncodeBytes(hash) + [0];
            && |str| == STRBYTES
            && NeedsRehash(str, ops', mem') == if Picked(ops', mem') == x then 0 else 1
  {
    hide Picked, Setting, EncodeBytes, Parse, Strnlen, Pow2;
    var x := Picked(ops, mem);
    PickedWithinLimits(ops, mem);
    var a, b := Setting(x) + EncodeBytes(salt), EncodeBytes(hash);
    var body := a + ['$' as int] + b;
    SettingHasNone(x);
    SaltHasNone(salt);
    SaltHasNone(hash);
    FullLength(body);
    ParseSetting(x, EncodeBytes(salt) + ['$' as int] + b + [0]);
    assert Setting(x) + (EncodeBytes(salt) + ['$' as int] + b + [0]) == body + [0];
  }
}
