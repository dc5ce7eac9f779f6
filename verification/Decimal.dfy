/**
 Decimal numbers in hash strings: the reader that rejects overflow and leading zeros, and
 the printer, are exact inverses.
 */
module Decimal {
  import opened Machine
  import opened Base64Chars

  const ZERO: int := '0' as int

  predicate IsDigit(c: Char) { ZERO <= c <= ZERO + 9 }

  /** The number of leading digits. */
  function Run(s: seq<Char>): (n: nat)
    ensures n <= |s|
    ensures forall i :: 0 <= i < n ==> IsDigit(s[i])
    ensures n < |s| ==> !IsDigit(s[n])
  {
    if s == [] || !IsDigit(s[0]) then 0 else 1 + Run(s[1..])
  }

  /** The value of a string of digits. */
  function NumberOf(s: seq<Char>): int {
    if s == [] then 0 else NumberOf(s[..|s| - 1]) * 10 + (s[|s| - 1] - ZERO)
  }

  /** The printed form. */
  function Dec(x: nat): (s: seq<Char>)
    ensures s != [] && forall i :: 0 <= i < |s| ==> IsDigit(s[i])
  {
    (if x < 10 then [] else Dec(x / 10)) + [DigitChar(x % 10)]
  }

  /** Ordinary decimal notation: one digit for a number below ten, and one more digit behind for ten times as much. */
  lemma DecIsDecimal(x: nat, d: nat)
    requires d < 10
    ensures Dec(d) == ['0' as int + d]
    ensures x > 0 ==> Dec(10 * x + d) == Dec(x) + ['0' as int + d]
  {
    assert (10 * x + d) / 10 == x && (10 * x + d) % 10 == d;
  }

  lemma DecExample()
    ensures Dec(65536) == ['6' as int, '5' as int, '5' as int, '3' as int, '6' as int]
  {
    DecIsDecimal(0, 6);
    DecIsDecimal(6, 5);
    DecIsDecimal(65, 5);
    DecIsDecimal(655, 3);
    DecIsDecimal(6553, 6);
  }

  function DigitChar(d: nat): Char
    requires d < 10
  {
    ZERO + d
  }

  predicate Minimal(s: seq<Char>) { s != [] && (s[0] != ZERO || |s| == 1) }

  datatype Number = Bad | Read(value: nat, len: nat)

  /** What reading a number at the start of `s` gives, for an `unsigned long` up to `max`. */
  function ReadNumber(s: seq<Char>, max: nat): Number {
    var n := Run(s);
    if !Minimal(s[..n]) || NumberOf(s[..n]) > max || NumberOf(s[..n]) < 0 then Bad else Read(NumberOf(s[..n]), n)
  }

  lemma {:induction false} NumberGrows(s: seq<Char>, i: nat, j: nat)
    requires i <= j <= |s| && forall k :: 0 <= k < j ==> IsDigit(s[k])
    ensures 0 <= NumberOf(s[..i]) <= NumberOf(s[..j])
    decreases j
  {
    if j > 0 {
      assert s[..j][..j - 1] == s[..j - 1];
      NumberGrows(s, if i < j then i else i - 1, j - 1);
    }
  }

  /** `decode_decimal`. */
  method DecodeDecimal(str: seq<Char>, ulongMax: nat) returns (r: Number)
    ensures r == ReadNumber(str, ulongMax)
  {
    var acc: nat := 0;
    var n := 0;
    assert str[..0] == [];
    while n < |str| && IsDigit(str[n])
      invariant n <= |str| && acc == NumberOf(str[..n]) <= ulongMax
      invariant forall k :: 0 <= k < n ==> IsDigit(str[k])
    {
      var c: nat := str[n] - ZERO;
      assert str[..n + 1][..n] == str[..n];
      RunReaches(str, n + 1);
      NumberGrows(str, n + 1, Run(str));
      if acc > ulongMax / 10 {
        return Bad;
      }
      acc := acc * 10;
      if c > ulongMax - acc {
        return Bad;
      }
      acc := acc + c;
      n := n + 1;
    }
    RunReaches(str, n);
    if n == 0 || (str[0] == ZERO && n != 1) {
      return Bad;
    }
    return Read(acc, n);
  }

  lemma {:induction false} RunReaches(s: seq<Char>, n: nat)
    requires n <= |s| && forall k :: 0 <= k < n ==> IsDigit(s[k])
    ensures n <= Run(s)
    ensures n < |s| && !IsDigit(s[n]) ==> Run(s) == n
    ensures n == |s| ==> Run(s) == n
    decreases n
  {
    if n > 0 {
      RunReaches(s[1..], n - 1);
    }
  }

  lemma {:induction false} NumberOfDec(x: nat)
    ensures NumberOf(Dec(x)) == x && Minimal(Dec(x)) && (Dec(x)[0] == ZERO <==> x == 0)
  {
    var d := Dec(x);
    if x < 10 {
      assert d[..0] == [];
    } else {
      NumberOfDec(x / 10);
      assert d[..|d| - 1] == Dec(x / 10);
    }
  }

  lemma {:induction false} DecOfNumber(s: seq<Char>)
    requires Minimal(s) && forall k :: 0 <= k < |s| ==> IsDigit(s[k])
    ensures NumberOf(s) >= 0 && Dec(NumberOf(s)) == s
    decreases |s|
  {
    var front, last := s[..|s| - 1], s[|s| - 1];
    if front == [] {
      assert NumberOf(front) == 0 && s == [last];
    } else {
      DecOfNumber(front);
      PositiveNumber(front);
      var x := NumberOf(s);
      assert x / 10 == NumberOf(front) && x % 10 == last - ZERO;
      assert s == front + [last];
    }
  }

  lemma {:induction false} PositiveNumber(s: seq<Char>)
    requires s != [] && s[0] != ZERO && forall k :: 0 <= k < |s| ==> IsDigit(s[k])
    ensures NumberOf(s) > 0
    decreases |s|
  {
    if |s| == 1 {
      assert s[..0] == [];
    } else {
      PositiveNumber(s[..|s| - 1]);
    }
  }

  /** Reading a printed number gives it back and stops where it ends. */
  lemma ReadPrinted(x: nat, rest: seq<Char>, max: nat)
    requires x <= max && (rest == [] || !IsDigit(rest[0]))
    ensures ReadNumber(Dec(x) + rest, max) == Read(x, |Dec(x)|)
  {
    hide NumberOf, Dec;
    var s := Dec(x) + rest;
    NumberOfDec(x);
    RunReaches(s, |Dec(x)|);
    assert s[..|Dec(x)|] == Dec(x);
  }

  /** What was read is printed as it stood. */
  lemma PrintRead(s: seq<Char>, max: nat)
    requires ReadNumber(s, max).Read?
    ensures var r := ReadNumber(s, max); r.value <= max && r.len <= |s| && s[..r.len] == Dec(r.value)
  {
    hide NumberOf, Dec;
    DecOfNumber(s[..Run(s)]);
  }

  function Pow10(n: nat): (p: nat)
    ensures p > 0
  {
    if n == 0 then 1 else 10 * Pow10(n - 1)
  }

  lemma TenDigits()
    ensures Pow10(10) == 10_000_000_000
  {
    assert Pow10(10) == 10 * Pow10(9) && Pow10(9) == 10 * Pow10(8) && Pow10(8) == 10 * Pow10(7);
    assert Pow10(7) == 10 * Pow10(6) && Pow10(6) == 10 * Pow10(5) && Pow10(5) == 10 * Pow10(4) && Pow10(4) == 10_000;
  }

  /** `u32_to_string`: digits from the last one, in a buffer of ten. */
  method U32ToString(value: u32) returns (str: seq<Char>)
    ensures str == Dec(value) && |str| <= 10
  {
    hide Pow10, Dec;
    TenDigits();
    var tmp := new Char[10](_ => ZERO);
    var i := 9;
    var x: nat := value;
    tmp[i] := DigitChar(x % 10);
    DecStep(x);
    PowStep(9);
    x := x / 10;
    assert tmp[9..] == [tmp[9]];
    while x != 0 && i != 0
      invariant 0 <= i <= 9 && x < Pow10(i)
      invariant Dec(value) == (if x == 0 then [] else Dec(x)) + tmp[i..]
    {
      i := i - 1;
      ghost var tail := tmp[i + 1..];
      DecStep(x);
      PowStep(i);
      tmp[i] := DigitChar(x % 10);
      assert tmp[i..] == [tmp[i]] + tail;
      x := x / 10;
    }
    NoDigitsLeft();
    str := tmp[i..];
  }

  lemma DecStep(x: nat)
    ensures Dec(x) == (if x / 10 == 0 then [] else Dec(x / 10)) + [DigitChar(x % 10)]
  {
  }

  lemma PowStep(n: nat)
    ensures Pow10(n + 1) == 10 * Pow10(n)
  {
  }

  lemma NoDigitsLeft()
    ensures Pow10(0) == 1
  {
  }
}
