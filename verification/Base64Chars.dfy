/**
 The branch-free character maps of Base64 (RFC 4648, sections 4 and 5) and the alphabets
 they compute. Characters are signed, as `char` is on the platforms of this program.
 */
module Base64Chars {
  import opened Machine
  import opened Bytes

  type Char = c: int | -128 <= c < 128
  type Digit = d: int | 0 <= d < 64

  datatype Variant = Variant(urlsafe: bool, padded: bool)

  /** `sodium_base64_check_variant`: bit 0 set, bits 1 and 2 free, nothing else. */
  function VariantOf(v: u32): Option<Variant> {
    if v % 2 == 1 && v / 8 == 0 then Some(Variant(v / 4 % 2 == 1, v / 2 % 2 == 0)) else None
  }

  /** The four variants by their numbers. */
  lemma VariantsAre(v: u32)
    ensures VariantOf(1) == Some(Variant(false, true)) && VariantOf(3) == Some(Variant(false, false))
    ensures VariantOf(5) == Some(Variant(true, true)) && VariantOf(7) == Some(Variant(true, false))
    ensures VariantOf(v).Some? <==> v == 1 || v == 3 || v == 5 || v == 7
  {
  }

  // ------------------------------------------------------ character maps

  function Xor32(x: u32, y: u32): u32 { Bits32(); XorBits(x, y, 32) }
  function And32(x: u32, y: u32): u32 { Bits32(); AndBits(x, y, 32) }
  function Or32(x: u32, y: u32): u32 { Bits32(); OrBits(x, y, 32) }

  lemma Bits32()
    ensures Pow2(32) == U32 && Pow2(8) == 256 && Pow2(7) == 128
  {
    Pow2Add(8, 8);
    Pow2Add(16, 8);
    Pow2Add(24, 8);
    EightBits();
  }

  /** The comparison macros: 0xFF for true, 0 for false, meant for small values. */
  function EQ(x: int, y: int): u32 { 0xFF - Wrap32(0 - Xor32(Wrap32(x), Wrap32(y)) as int) / 256 % 256 }
  function GT(x: int, y: int): u32 { Wrap32(y - x) / 256 % 256 }
  function GE(x: int, y: int): u32 { 0xFF - GT(y, x) }
  function LT(x: int, y: int): u32 { GT(y, x) }
  function LE(x: int, y: int): u32 { GE(y, x) }

  function Char62(urlsafe: bool): Char { if urlsafe then '-' as int else '+' as int }
  function Char63(urlsafe: bool): Char { if urlsafe then '_' as int else '/' as int }

  /** `b64_byte_to_char` and `b64_byte_to_urlsafe_char`. */
  function ByteToChar(x: Digit, urlsafe: bool): u32 {
    Or32(Or32(Or32(Or32(
      And32(LT(x, 26), x + 'A' as int),
      And32(And32(GE(x, 26), LT(x, 52)), x + ('a' as int - 26))),
      And32(And32(GE(x, 52), LT(x, 62)), Wrap32(x + ('0' as int - 52)))),
      And32(EQ(x, 62), Char62(urlsafe))),
      And32(EQ(x, 63), Char63(urlsafe)))
  }

  /** `b64_char_to_byte` and `b64_urlsafe_char_to_byte`: 0xFF when `c` is no digit. */
  function CharToByte(c: Char, urlsafe: bool): u32 {
    var x := Summed(c, urlsafe);
    Or32(x, And32(EQ(x, 0), 0xFF - EQ(c, 'A' as int)))
  }

  function Summed(c: Char, urlsafe: bool): u32 {
    Or32(Or32(Or32(Or32(
      And32(And32(GE(c, 'A' as int), LE(c, 'Z' as int)), Wrap32(c - 'A' as int)),
      And32(And32(GE(c, 'a' as int), LE(c, 'z' as int)), Wrap32(c - ('a' as int - 26)))),
      And32(And32(GE(c, '0' as int), LE(c, '9' as int)), Wrap32(c - ('0' as int - 52)))),
      And32(EQ(c, Char62(urlsafe)), 62)),
      And32(EQ(c, Char63(urlsafe)), 63))
  }

  /** The alphabet of RFC 4648. */
  function Alphabet(x: Digit, urlsafe: bool): Char {
    if x < 26 then 'A' as int + x
    else if x < 52 then 'a' as int + (x - 26)
    else if x < 62 then '0' as int + (x - 52)
    else if x == 62 then Char62(urlsafe)
    else Char63(urlsafe)
  }

  /** Tables 1 and 2 of RFC 4648: where the runs of letters begin and end, and that they have no gaps. */
  lemma AlphabetIsRfc(urlsafe: bool, x: Digit)
    ensures Alphabet(0, urlsafe) == 'A' as int && Alphabet(25, urlsafe) == 'Z' as int
    ensures Alphabet(26, urlsafe) == 'a' as int && Alphabet(51, urlsafe) == 'z' as int
    ensures Alphabet(52, urlsafe) == '0' as int && Alphabet(61, urlsafe) == '9' as int
    ensures Alphabet(62, false) == '+' as int && Alphabet(63, false) == '/' as int
    ensures Alphabet(62, true) == '-' as int && Alphabet(63, true) == '_' as int
    ensures x < 61 && x != 25 && x != 51 ==> Alphabet(x + 1, urlsafe) == Alphabet(x, urlsafe) + 1
  {
  }

  lemma HalfComplement(x: nat, k: nat)
    requires k > 0 && x < Pow2(k)
    ensures x / 2 < Pow2(k - 1)
    ensures (Pow2(k) - 1 - x) / 2 == Pow2(k - 1) - 1 - x / 2 && (Pow2(k) - 1 - x) % 2 == 1 - x % 2
  {
  }

  lemma FromComplementHalves(u: nat, v: nat, h: nat)
    requires u / 2 == h - 1 - v / 2 && u % 2 == 1 - v % 2
    ensures u == 2 * h - 1 - v
  {
  }

  /** Complementing one operand complements the result. */
  lemma {:induction false} XorComplement(x: nat, y: nat, k: nat)
    requires x < Pow2(k)
    ensures XorBits(Pow2(k) - 1 - x, y, k) == Pow2(k) - 1 - XorBits(x, y, k)
    decreases k
  {
    hide XorBits, Parity;
    if k > 0 {
      var c := Pow2(k) - 1 - x;
      assert Pow2(k) == 2 * Pow2(k - 1);
      hide Pow2;
      HalfComplement(x, k);
      XorBitsStep(c, y, k);
      XorBitsStep(x, y, k);
      XorComplement(x / 2, y / 2, k - 1);
      OtherParity(c, x, y);
      FromComplementHalves(XorBits(c, y, k), XorBits(x, y, k), Pow2(k - 1));
    } else {
      NoBits(0, y);
    }
  }

  lemma OtherParity(c: nat, x: nat, y: nat)
    requires c % 2 == 1 - x % 2
    ensures Parity(c, y) == 1 - Parity(x, y)
  {
  }

  /** `mask & v` and `x | 0` for the masks of the macros. */
  lemma MaskLaws(v: u32)
    ensures And32(0, v) == 0 && (v < 256 ==> And32(0xFF, v) == v)
    ensures Or32(v, 0) == v && Or32(0, v) == v
  {
    Bits32();
    AndNone(v, 32);
    if v < 256 {
      AndOnes(v, 32, 8);
    }
    OrNone(v, 32);
  }

  /** EQ on a character and a small constant: true for equal values, and for every negative character. */
  lemma EqTable(x: int, y: int)
    requires -128 <= x < 256 && 0 <= y < 128
    ensures EQ(x, y) == if x < 0 || x == y then 0xFF else 0
  {
    hide EQ;
    if x < 0 {
      EqNegative(x, y);
    } else {
      EqSmall(x, y);
    }
  }

  lemma EqSmall(x: nat, y: nat)
    requires x < 256 && y < 128
    ensures EQ(x, y) == if x == y then 0xFF else 0
  {
    Bits32();
    hide XorBits;
    var z := XorBits(x, y, 32);
    assert Wrap32(x) == x && Wrap32(y) == y;
    XorSmall(x, y, 32, 8);
    XorBitsZero(x, y, 32);
    Negated(z);
  }

  lemma Negated(z: nat)
    requires z < 256
    ensures Wrap32(0 - z as int) / 256 % 256 == if z == 0 then 0 else 0xFF
  {
    assert Wrap32(0 - z as int) == if z == 0 then 0 else U32 - z;
  }

  lemma EqNegative(x: int, y: nat)
    requires -128 <= x < 0 && y < 128
    ensures EQ(x, y) == 0xFF
  {
    Bits32();
    hide XorBits;
    var n: nat := -1 - x;
    var w := XorBits(n, y, 32);
    assert Wrap32(x) == U32 - 1 - n && Wrap32(y) == y;
    XorComplement(n, y, 32);
    XorSmall(n, y, 32, 7);
    NegatedHigh(w);
  }

  lemma NegatedHigh(w: nat)
    requires w < 128
    ensures Wrap32(0 - (U32 - 1 - w)) / 256 % 256 == 0
  {
    assert Wrap32(0 - (U32 - 1 - w)) == 1 + w;
  }

  lemma GtTable(x: int, y: int)
    requires -256 <= y - x < 256
    ensures GT(x, y) == if x > y then 0xFF else 0
  {
    assert Wrap32(y - x) == if x > y then U32 + (y - x) else y - x;
  }

  /** At most one term is not zero: OR is the sum. */
  lemma OneOfFive(a: u32, b: u32, c: u32, d: u32, e: u32)
    requires a == 0 || b + c + d + e == 0
    requires b == 0 || c + d + e == 0
    requires c == 0 || d + e == 0
    requires d == 0 || e == 0
    ensures Or32(Or32(Or32(Or32(a, b), c), d), e) == a + b + c + d + e
  {
    hide Or32, And32;
    MaskLaws(a);
    MaskLaws(b);
    MaskLaws(c);
    MaskLaws(d);
    MaskLaws(e);
    MaskLaws(0);
  }

  /** A term under a condition. */
  lemma Masked(mask: u32, v: u32)
    requires mask == 0 || (mask == 0xFF && v < 256)
    ensures And32(mask, v) == if mask == 0 then 0 else v
  {
    hide And32, Or32;
    MaskLaws(v);
  }

  /** A term under two conditions. */
  lemma MaskedTwice(m: u32, n: u32, v: u32)
    requires m == 0 || m == 0xFF
    requires n == 0 || n == 0xFF
    requires m == 0 || n == 0 || v < 256
    ensures And32(And32(m, n), v) == if m == 0 || n == 0 then 0 else v
  {
    hide And32, Or32;
    Masked(m, n);
    Masked(And32(m, n), v);
  }

  lemma DigitLetter(x: Digit)
    ensures x >= 52 ==> Wrap32(x + ('0' as int - 52)) == x + ('0' as int - 52)
  {
  }

  /** The encoder's map is the alphabet. */
  lemma ByteToCharIsAlphabet(x: Digit, urlsafe: bool)
    ensures ByteToChar(x, urlsafe) == Alphabet(x, urlsafe)
  {
    hide EQ, GT, And32, Or32, Wrap32;
    GtTable(26, x);
    GtTable(52, x);
    GtTable(62, x);
    EqTable(x, 62);
    EqTable(x, 63);
    var a, b, c: u32 := x + 'A' as int, x + ('a' as int - 26), Wrap32(x + ('0' as int - 52));
    DigitLetter(x);
    Masked(LT(x, 26), a);
    MaskedTwice(GE(x, 26), LT(x, 52), b);
    MaskedTwice(GE(x, 52), LT(x, 62), c);
    Masked(EQ(x, 62), Char62(urlsafe));
    Masked(EQ(x, 63), Char63(urlsafe));
    OneOfFive(And32(LT(x, 26), a), And32(And32(GE(x, 26), LT(x, 52)), b), And32(And32(GE(x, 52), LT(x, 62)), c),
      And32(EQ(x, 62), Char62(urlsafe)), And32(EQ(x, 63), Char63(urlsafe)));
  }

  function DigitOf(c: Char, urlsafe: bool): (d: u32)
    ensures d < 64 || d == 0xFF
  {
    if c < 0 then 63
    else if 'A' as int <= c <= 'Z' as int then c - 'A' as int
    else if 'a' as int <= c <= 'z' as int then c - 'a' as int + 26
    else if '0' as int <= c <= '9' as int then c - '0' as int + 52
    else if c == Char62(urlsafe) then 62
    else if c == Char63(urlsafe) then 63
    else 0xFF
  }

  lemma Offsets(c: Char)
    ensures c >= 'A' as int ==> Wrap32(c - 'A' as int) == c - 'A' as int
    ensures c >= 'a' as int ==> Wrap32(c - ('a' as int - 26)) == c - ('a' as int - 26)
    ensures Wrap32(c - ('0' as int - 52)) == if c >= 0 then c + 4 else Wrap32(c + 4)
  {
  }

  /** The sum of the range terms: the digit, or 0 outside the alphabet. */
  lemma SummedIsDigit(c: Char, urlsafe: bool)
    ensures Summed(c, urlsafe) == if DigitOf(c, urlsafe) == 0xFF then 0 else DigitOf(c, urlsafe)
  {
    hide EQ, GT, And32, Or32, Wrap32;
    GtTable('A' as int, c);
    GtTable(c, 'Z' as int);
    GtTable('a' as int, c);
    GtTable(c, 'z' as int);
    GtTable('0' as int, c);
    GtTable(c, '9' as int);
    EqTable(c, Char62(urlsafe));
    EqTable(c, Char63(urlsafe));
    Offsets(c);
    var a, b, d := Wrap32(c - 'A' as int), Wrap32(c - ('a' as int - 26)), Wrap32(c - ('0' as int - 52));
    MaskedTwice(GE(c, 'A' as int), LE(c, 'Z' as int), a);
    MaskedTwice(GE(c, 'a' as int), LE(c, 'z' as int), b);
    MaskedTwice(GE(c, '0' as int), LE(c, '9' as int), d);
    Masked(EQ(c, Char62(urlsafe)), 62);
    Masked(EQ(c, Char63(urlsafe)), 63);
    if c < 0 {
      BothLast();
      MaskLaws(0);
      MaskLaws(62);
    } else {
      OneOfFive(And32(And32(GE(c, 'A' as int), LE(c, 'Z' as int)), a),
                And32(And32(GE(c, 'a' as int), LE(c, 'z' as int)), b),
                And32(And32(GE(c, '0' as int), LE(c, '9' as int)), d),
                And32(EQ(c, Char62(urlsafe)), 62), And32(EQ(c, Char63(urlsafe)), 63));
    }
  }

  /** The decoder's map: the inverse of the alphabet, 0xFF outside it, and 63 for every negative character. */
  lemma CharToByteIsDigit(c: Char, urlsafe: bool)
    ensures CharToByte(c, urlsafe) == DigitOf(c, urlsafe)
  {
    hide EQ, GT, And32, Or32, XorBits, AndBits, OrBits, Summed;
    SummedIsDigit(c, urlsafe);
    var x := Summed(c, urlsafe);
    EqTable(x, 0);
    EqTable(c, 'A' as int);
    MaskLaws(0);
    MaskLaws(0xFF);
    MaskLaws(x);
  }

  lemma BothLast()
    ensures Or32(62, 63) == 63
  {
    Bits32();
    assert OrBits(62, 63, 32) == 2 * OrBits(31, 31, 31) + 1;
    Pow2Add(26, 5);
    assert Pow2(5) == 32;
    OrSame(31, 31);
  }
}
