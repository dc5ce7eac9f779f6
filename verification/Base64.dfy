/**
 Base64 in its four variants: encoder and decoder loops over a wrapping 32-bit
 accumulator, padding and ignored characters, against an index-by-index definition.
 */
module Base64 {
  import opened Machine
  import opened Bytes
  import opened Base64Chars

  // ------------------------------------------------------- specification

  function ByteAt(bin: seq<byte>, i: nat): byte { if i < |bin| then bin[i] else 0 }

  /** Bits 6k to 6k+5 of the data, zero-filled at the end. */
  function Sextet(bin: seq<byte>, k: nat): Digit {
    var g := 3 * (k / 4);
    if k % 4 == 0 then ByteAt(bin, g) / 4
    else if k % 4 == 1 then ByteAt(bin, g) % 4 * 16 + ByteAt(bin, g + 1) / 16
    else if k % 4 == 2 then ByteAt(bin, g + 1) % 16 * 4 + ByteAt(bin, g + 2) / 64
    else ByteAt(bin, g + 2) % 64
  }

  /** Digits that carry `n` bytes. */
  function DigitCount(n: nat): nat { 4 * (n / 3) + (if n % 3 == 0 then 0 else n % 3 + 1) }

  function PadCount(n: nat): nat { if n % 3 == 0 then 0 else 3 - n % 3 }

  function Pad(): Char { '=' as int }

  function Pads(n: nat): (p: seq<Char>)
    ensures |p| == n && forall i :: 0 <= i < n ==> p[i] == Pad()
  {
    seq(n, _ => Pad())
  }

  function Letters(bin: seq<byte>, n: nat, v: Variant): (s: seq<Char>)
    ensures |s| == n && forall k :: 0 <= k < n ==> s[k] == Alphabet(Sextet(bin, k), v.urlsafe)
  {
    seq(n, k requires 0 <= k < n => Alphabet(Sextet(bin, k), v.urlsafe))
  }

  /** The encoding of `bin`, without the terminator. */
  function Encoded(bin: seq<byte>, v: Variant): (s: seq<Char>) {
    Letters(bin, DigitCount(|bin|), v) + (if v.padded then Pads(PadCount(|bin|)) else [])
  }

  /** Section 4 of RFC 4648: the 24 bits of three bytes, first byte first, are the 24 bits of four digits. */
  lemma GroupIsNumber(bin: seq<byte>, g: nat)
    requires 3 * g + 3 <= |bin|
    ensures ((Sextet(bin, 4 * g) * 64 + Sextet(bin, 4 * g + 1)) * 64 + Sextet(bin, 4 * g + 2)) * 64
            + Sextet(bin, 4 * g + 3)
            == (bin[3 * g] as int * 256 + bin[3 * g + 1] as int) * 256 + bin[3 * g + 2] as int
  {
    var a, b, c := bin[3 * g], bin[3 * g + 1], bin[3 * g + 2];
    assert Sextet(bin, 4 * g) == a / 4 && Sextet(bin, 4 * g + 1) == a % 4 * 16 + b / 16;
    assert Sextet(bin, 4 * g + 2) == b % 16 * 4 + c / 64 && Sextet(bin, 4 * g + 3) == c % 64;
  }

  /** The letters of an encoding one by one. */
  lemma EncodedAt(bin: seq<byte>, v: Variant)
    ensures var e, n := Encoded(bin, v), DigitCount(|bin|);
            && |e| == n + (if v.padded then PadCount(|bin|) else 0)
            && (forall k :: 0 <= k < n ==> e[k] == Alphabet(Sextet(bin, k), v.urlsafe))
            && (forall k :: n <= k < |e| ==> e[k] == Pad())
  {
    hide Sextet, Alphabet, DigitCount, PadCount;
  }

  /** Section 10 of RFC 4648: "f". */
  lemma VectorF()
    ensures Encoded([0x66], Variant(false, true)) ==
            ['Z' as int, 'g' as int, '=' as int, '=' as int]
  {
    var bin: seq<byte> := [0x66];
    assert Sextet(bin, 0) == 25 && Sextet(bin, 1) == 32;
    assert DigitCount(1) == 2 && PadCount(1) == 2;
    hide Sextet, Encoded, DigitCount, PadCount;
    EncodedAt(bin, Variant(false, true));
  }

  /** Section 10 of RFC 4648: "fo". */
  lemma VectorFo()
    ensures Encoded([0x66, 0x6f], Variant(false, true)) ==
            ['Z' as int, 'm' as int, '8' as int, '=' as int]
  {
    var bin: seq<byte> := [0x66, 0x6f];
    assert Sextet(bin, 0) == 25 && Sextet(bin, 1) == 38 && Sextet(bin, 2) == 60;
    assert DigitCount(2) == 3 && PadCount(2) == 1;
    hide Sextet, Encoded, DigitCount, PadCount;
    EncodedAt(bin, Variant(false, true));
  }

  /** Section 10 of RFC 4648: "foo". */
  lemma VectorFoo()
    ensures Encoded([0x66, 0x6f, 0x6f], Variant(false, true)) ==
            ['Z' as int, 'm' as int, '9' as int, 'v' as int]
  {
    var bin: seq<byte> := [0x66, 0x6f, 0x6f];
    assert Sextet(bin, 0) == 25 && Sextet(bin, 1) == 38 && Sextet(bin, 2) == 61 && Sextet(bin, 3) == 47;
    assert DigitCount(3) == 4 && PadCount(3) == 0;
    hide Sextet, Encoded, DigitCount, PadCount;
    EncodedAt(bin, Variant(false, true));
  }

  /** Without padding, in the alphabet for file names. */
  lemma VectorForNames()
    ensures Encoded([0xfb, 0xff], Variant(true, false)) ==
            ['-' as int, '_' as int, '8' as int]
  {
    var bin: seq<byte> := [0xfb, 0xff];
    assert Sextet(bin, 0) == 62 && Sextet(bin, 1) == 63 && Sextet(bin, 2) == 60;
    assert DigitCount(2) == 3 && PadCount(2) == 1;
    hide Sextet, Encoded, DigitCount, PadCount;
    EncodedAt(bin, Variant(true, false));
  }

  /** `b64_len` as the encoder computes it. */
  function EncodedLength(n: nat, v: Variant): nat {
    var nibbles := n / 3;
    var remainder := n - 3 * nibbles;
    nibbles * 4 + (if remainder == 0 then 0 else if v.padded then 4 else 2 + remainder / 2)
  }

  /** `sodium_base64_ENCODED_LEN`, with its bit tricks on the remainder. */
  function EncodedLen(n: nat, v: Variant): int {
    var r := n - n / 3 * 3;
    n / 3 * 4 + (if r % 2 == 1 || r / 2 % 2 == 1 then 1 else 0) * (4 - (if v.padded then 0 else 3 - r)) + 1
  }

  /** Characters written plus the terminator are what both length computations say. */
  lemma LengthsAgree(bin: seq<byte>, v: Variant)
    ensures |Encoded(bin, v)| == EncodedLength(|bin|, v)
    ensures EncodedLen(|bin|, v) == |Encoded(bin, v)| + 1
  {
    hide Letters, Pads;
    var q, r := |bin| / 3, |bin| % 3;
    hide DigitCount, PadCount, EncodedLength, EncodedLen;
    CountsByThirds(|bin|, q, r, v);
  }

  lemma CountsByThirds(n: nat, q: nat, r: nat, v: Variant)
    requires q == n / 3 && r == n % 3 && n == 3 * q + r
    ensures DigitCount(n) == 4 * q + (if r == 0 then 0 else r + 1) && PadCount(n) == if r == 0 then 0 else 3 - r
    ensures EncodedLength(n, v) == 4 * q + (if r == 0 then 0 else if v.padded then 4 else r + 1)
    ensures EncodedLen(n, v) == EncodedLength(n, v) + 1
  {
    assert r == 0 || r == 1 || r == 2;
  }

  // ------------------------------------------------------------- encoder

  function Pair(a: nat, b: byte): nat { a * 256 + b }

  /** The low `accLen` bits of the accumulator are the bits of the first `p` bytes not yet written. */
  predicate Holds(bin: seq<byte>, p: nat, acc: u32, accLen: nat)
    requires p <= |bin|
  {
    match accLen
    case 0 => p % 3 == 0
    case 2 => p % 3 == 1 && acc % 4 == bin[p - 1] % 4
    case 4 => p % 3 == 2 && acc % 16 == bin[p - 1] % 16
    case 6 => p % 3 == 0 && p > 0 && acc % 64 == bin[p - 1] % 64
    case 8 => p % 3 == 1 && acc % 256 == bin[p - 1]
    case 10 => p % 3 == 2 && acc % 1024 == Pair(bin[p - 2] % 4, bin[p - 1])
    case 12 => p % 3 == 0 && p > 0 && acc % 4096 == Pair(bin[p - 2] % 16, bin[p - 1])
    case _ => false
  }

  /** `(acc << 8) + b`. */
  function Shift8(acc: u32, b: byte): u32 { Wrap32(Wrap32(acc * 256) as int + b) }

  /** `(acc >> n) & 0x3F` and `(acc << n) & 0x3F`. */
  function Take6(acc: u32, n: nat): Digit { acc / Pow2(n) % 64 }
  function Give6(acc: u32, n: nat): Digit { Wrap32(acc * Pow2(n)) % 64 }

  lemma SmallPowers()
    ensures Pow2(0) == 1 && Pow2(2) == 4 && Pow2(4) == 16 && Pow2(6) == 64
  {
    assert Pow2(1) == 2 && Pow2(3) == 8 && Pow2(5) == 32;
  }

  lemma ModFrom(r: int, k: int, m: nat, n: nat)
    requires m < n && r == k * n + m
    ensures r % n == m
  {
    EuclidUnique(r / n, r % n, k, m, n);
  }

  lemma Shift8Value(acc: u32, b: byte)
    ensures Shift8(acc, b) % 4096 == Pair(acc % 16, b)
    ensures Shift8(acc, b) % 1024 == Pair(acc % 4, b)
    ensures Shift8(acc, b) % 256 == b
  {
    var x := acc * 256;
    var y := Wrap32(x) as int + b;
    var q := x / U32 + y / U32;
    var r := Shift8(acc, b);
    assert r == x + b - q * U32;
    ModFrom(r, acc / 16 - q * 0x10_0000, acc % 16 * 256 + b, 4096);
    ModFrom(r, acc / 4 - q * 0x40_0000, acc % 4 * 256 + b, 1024);
    ModFrom(r, acc - q * 0x100_0000, b, 256);
  }

  /** Digit `acc / n % 64` from the low part of the accumulator. */
  lemma MiddleBits(acc: nat, n: nat)
    requires n == 64 || n == 16 || n == 4
    ensures acc / n % 64 == acc % (64 * n) / n
  {
    var k, m := acc / (64 * n), acc % (64 * n);
    var a, b := m / n, m % n;
    assert a < 64;
    DivModUnique(64 * k + a, b, n);
    ModFrom(64 * k + a, k, a, 64);
  }

  lemma Take6Low(acc: u32)
    ensures Take6(acc, 6) == acc % 4096 / 64 && Take6(acc, 4) == acc % 1024 / 16 && Take6(acc, 2) == acc % 256 / 4
    ensures Take6(acc, 0) == acc % 64
  {
    SmallPowers();
    MiddleBits(acc, 64);
    MiddleBits(acc, 16);
    MiddleBits(acc, 4);
  }

  lemma Give6Low(acc: u32)
    ensures Give6(acc, 4) == acc % 4 * 16 && Give6(acc, 2) == acc % 16 * 4
  {
    SmallPowers();
    var x, y := acc * 16, acc * 4;
    ModFrom(Wrap32(x), acc / 4 - x / U32 * 0x400_0000, acc % 4 * 16, 64);
    ModFrom(Wrap32(y), acc / 16 - y / U32 * 0x400_0000, acc % 16 * 4, 64);
  }

  lemma NextByte(bin: seq<byte>, p: nat, acc: u32, accLen: nat)
    requires p < |bin| && accLen < 6 && Holds(bin, p, acc, accLen)
    ensures Holds(bin, p + 1, Shift8(acc, bin[p]), accLen + 8)
  {
    hide Shift8;
    Shift8Value(acc, bin[p]);
  }

  lemma NextDigit(bin: seq<byte>, p: nat, acc: u32, accLen: nat, pos: nat)
    requires p <= |bin| && accLen >= 6 && Holds(bin, p, acc, accLen) && 6 * pos + accLen == 8 * p
    ensures Take6(acc, accLen - 6) == Sextet(bin, pos)
    ensures Holds(bin, p, acc, accLen - 6)
  {
    hide Take6, Sextet, Pair;
    Take6Low(acc);
    var r := if accLen == 6 then 3 else (accLen - 8) / 2;
    GroupAt(p, pos, r);
    SextetAt(bin, p, pos, r);
    Residues(acc);
    if accLen == 10 {
      PairBits(bin[p - 2] % 4, bin[p - 1]);
    } else if accLen == 12 {
      PairBits(bin[p - 2] % 16, bin[p - 1]);
    }
  }

  /** Position `pos` of the text, the group of data it belongs to, and its digit. */
  lemma GroupAt(p: nat, pos: nat, r: nat)
    requires r < 4 && 6 * pos + (if r == 3 then 6 else 8 + 2 * r) == 8 * p
    ensures pos % 4 == r && 3 * (pos / 4) == p - (if r == 3 then 3 else r + 1)
  {
  }

  lemma SextetAt(bin: seq<byte>, p: nat, pos: nat, r: nat)
    requires r < 4 && pos % 4 == r && p <= |bin| && 3 * (pos / 4) == p - (if r == 3 then 3 else r + 1)
    ensures Sextet(bin, pos) ==
            if r == 0 then bin[p - 1] / 4
            else if r == 1 then bin[p - 2] % 4 * 16 + bin[p - 1] / 16
            else if r == 2 then bin[p - 2] % 16 * 4 + bin[p - 1] / 64
            else bin[p - 1] % 64
  {
  }

  lemma PairBits(a: nat, b: byte)
    ensures Pair(a, b) / 16 == a * 16 + b / 16 && Pair(a, b) / 64 == a * 4 + b / 64
    ensures Pair(a, b) % 16 == b % 16 && Pair(a, b) % 64 == b % 64
  {
  }

  lemma Residues(acc: nat)
    ensures acc % 256 % 4 == acc % 4 && acc % 1024 % 16 == acc % 16 && acc % 4096 % 64 == acc % 64
  {
    ModFrom(acc % 256, acc / 4 - 64 * (acc / 256), acc % 4, 4);
    ModFrom(acc % 1024, acc / 16 - 64 * (acc / 1024), acc % 16, 16);
    ModFrom(acc % 4096, acc / 64 - 64 * (acc / 4096), acc % 64, 64);
  }

  lemma LastDigit(bin: seq<byte>, acc: u32, accLen: nat, pos: nat)
    requires 0 < accLen < 6 && Holds(bin, |bin|, acc, accLen) && 6 * pos + accLen == 8 * |bin|
    ensures Give6(acc, 6 - accLen) == Sextet(bin, pos)
    ensures pos + 1 == DigitCount(|bin|)
  {
    hide Give6;
    Give6Low(acc);
  }

  function Nul(): Char { 0 }

  function Nuls(n: nat): (z: seq<Char>)
    ensures |z| == n && forall i :: 0 <= i < n ==> z[i] == Nul()
  {
    seq(n, _ => Nul())
  }

  lemma SpecialCharacters()
    ensures Pad() == '=' as int && Nul() == '\0' as int
  {
  }

  /** `sodium_bin2base64` into the buffer from `dst` on: text, padding and terminators up to the end, or an abort. */
  method Bin2Base64(b64: array<Char>, dst: nat, bin: seq<byte>, variant: u32) returns (aborted: bool)
    requires dst <= b64.Length
    modifies b64
    ensures aborted <==>
        VariantOf(variant).None? || b64.Length - dst <= EncodedLength(|bin|, VariantOf(variant).value)
    ensures aborted ==> b64[..] == old(b64[..])
    ensures !aborted ==>
        var text := Encoded(bin, VariantOf(variant).value);
        dst + |text| < b64.Length && b64[..] == old(b64[..dst]) + text + Nuls(b64.Length - dst - |text|)
  {
    hide Letters, Pads, Nuls, DigitCount;
    var known := VariantOf(variant);
    if known.None? || b64.Length - dst <= EncodedLength(|bin|, known.value) {
      return true;
    }
    var v := known.value;
    var b64Len := EncodedLength(|bin|, v);
    LengthsAgree(bin, v);
    Counts(|bin|, v);
    var pos := WriteDigits(b64, dst, bin, v);
    Finish(b64, dst + pos, dst + b64Len);
    assert old(b64[..dst]) + Letters(bin, pos, v) + Pads(b64Len - pos)
        == old(b64[..dst]) + (Letters(bin, pos, v) + Pads(b64Len - pos));
    return false;
  }

  lemma WrittenAt(was: seq<Char>, dst: nat, bin: seq<byte>, v: Variant, pos: nat)
    ensures Written(was, dst, bin, v, dst + pos) == Alphabet(Sextet(bin, pos), v.urlsafe)
  {
  }

  lemma NothingWritten(was: seq<Char>, dst: nat, bin: seq<byte>, v: Variant)
    requires dst <= |was|
    ensures forall k :: 0 <= k < dst ==> was[k] == Written(was, dst, bin, v, k)
  {
  }

  lemma WrittenText(was: seq<Char>, dst: nat, bin: seq<byte>, v: Variant, pos: nat, out: seq<Char>)
    requires dst <= |was| && dst + pos <= |out|
    requires forall k :: 0 <= k < dst + pos ==> out[k] == Written(was, dst, bin, v, k)
    ensures out[..dst + pos] == was[..dst] + Letters(bin, pos, v)
  {
    hide Alphabet, Sextet;
  }

  /** The accumulator loops. */
  method WriteDigits(b64: array<Char>, dst: nat, bin: seq<byte>, v: Variant) returns (pos: nat)
    requires dst + DigitCount(|bin|) <= b64.Length
    modifies b64
    ensures pos == DigitCount(|bin|) && b64[..dst + pos] == old(b64[..dst]) + Letters(bin, pos, v)
  {
    hide Holds, Shift8, Take6, Give6, Sextet, Alphabet, ByteToChar, DigitCount, Written, Letters;
    var acc: u32, accLen: nat, p := 0, 0, 0;
    pos := 0;
    NothingHeld(bin);
    ghost var was := b64[..];
    NothingWritten(was, dst, bin, v);
    while p < |bin|
      invariant p <= |bin| && accLen < 6 && Holds(bin, p, acc, accLen) && 6 * pos + accLen == 8 * p
      invariant pos <= DigitCount(|bin|)
      invariant forall k :: 0 <= k < dst + pos ==> b64[k] == Written(was, dst, bin, v, k)
    {
      NextByte(bin, p, acc, accLen);
      acc := Shift8(acc, bin[p]);
      p := p + 1;
      accLen := accLen + 8;
      while accLen >= 6
        invariant Holds(bin, p, acc, accLen) && 6 * pos + accLen == 8 * p
        invariant pos <= DigitCount(|bin|)
        invariant forall k :: 0 <= k < dst + pos ==> b64[k] == Written(was, dst, bin, v, k)
      {
        NextDigit(bin, p, acc, accLen, pos);
        PositionFits(|bin|, p, accLen, pos);
        WrittenAt(was, dst, bin, v, pos);
        accLen := accLen - 6;
        ByteToCharIsAlphabet(Take6(acc, accLen), v.urlsafe);
        b64[dst + pos] := ByteToChar(Take6(acc, accLen), v.urlsafe);
        pos := pos + 1;
      }
    }
    WholeGroups(bin, acc, accLen, pos);
    if accLen > 0 {
      LastDigit(bin, acc, accLen, pos);
      WrittenAt(was, dst, bin, v, pos);
      ByteToCharIsAlphabet(Give6(acc, 6 - accLen), v.urlsafe);
      b64[dst + pos] := ByteToChar(Give6(acc, 6 - accLen), v.urlsafe);
      pos := pos + 1;
    }
    WrittenText(was, dst, bin, v, pos, b64[..]);
    assert b64[..][..dst + pos] == b64[..dst + pos] && was[..dst] == old(b64[..dst]);
  }

  /** Character `k` of a buffer with the digits written from `dst` on. */
  function Written(was: seq<Char>, dst: nat, bin: seq<byte>, v: Variant, k: nat): Char {
    if k < dst && k < |was| then was[k] else if dst <= k then Alphabet(Sextet(bin, k - dst), v.urlsafe) else Nul()
  }

  /** Padding up to `b64Len`, terminators after it. */
  method Finish(b64: array<Char>, start: nat, b64Len: nat)
    requires start <= b64Len < b64.Length
    modifies b64
    ensures b64[..] == old(b64[..start]) + Pads(b64Len - start) + Nuls(b64.Length - b64Len)
  {
    var pos := start;
    while pos < b64Len
      invariant start <= pos <= b64Len
      invariant forall k :: 0 <= k < pos ==> b64[k] == if k < start then old(b64[k]) else Pad()
    {
      b64[pos] := Pad();
      pos := pos + 1;
    }
    while pos < b64.Length
      invariant b64Len <= pos <= b64.Length
      invariant forall k :: 0 <= k < pos ==>
          b64[k] == if k < start then old(b64[k]) else if k < b64Len then Pad() else Nul()
    {
      b64[pos] := 0;
      pos := pos + 1;
    }
  }

  lemma Counts(n: nat, v: Variant)
    ensures EncodedLength(n, v) == DigitCount(n) + (if v.padded then PadCount(n) else 0)
  {
  }

  lemma NothingHeld(bin: seq<byte>)
    ensures Holds(bin, 0, 0, 0)
  {
  }

  lemma PositionFits(n: nat, p: nat, accLen: nat, pos: nat)
    requires p <= n && accLen >= 6 && 6 * pos + accLen == 8 * p
    ensures pos < DigitCount(n)
  {
  }

  lemma WholeGroups(bin: seq<byte>, acc: u32, accLen: nat, pos: nat)
    requires accLen < 6 && Holds(bin, |bin|, acc, accLen) && 6 * pos + accLen == 8 * |bin|
    ensures accLen == 0 ==> pos == DigitCount(|bin|)
    ensures accLen > 0 ==> pos + 1 == DigitCount(|bin|)
  {
  }
}
