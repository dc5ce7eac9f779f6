/**
 Base64 decoding: digits, ignored characters, leftover bits, padding, and what the decoder
 reports. Decoding undoes encoding, and without ignored characters the accepted text is the
 encoding of what it decodes to, exactly when it holds no negative character.
 */
module Base64Decode {
  import opened Machine
  import opened Bytes
  import opened Base64Chars
  import opened Base64

  // ------------------------------------------------------- specification

  /** `ignore != NULL && strchr(ignore, c) != NULL`; strchr also finds the terminator. */
  predicate Ignored(ignore: Option<seq<Char>>, c: Char) {
    ignore.Some? && (c == Nul() || c in ignore.value)
  }

  /** Whole bytes in `n` digits. */
  function ByteCount(n: nat): nat { 3 * (n / 4) + (if n % 4 == 0 then 0 else n % 4 - 1) }

  function Octet(ds: seq<Digit>, i: nat): byte
    requires i < ByteCount(|ds|)
  {
    var k := 4 * (i / 3);
    if i % 3 == 0 then ds[k] as int * 4 + ds[k + 1] as int / 16
    else if i % 3 == 1 then ds[k + 1] as int % 16 * 16 + ds[k + 2] as int / 4
    else ds[k + 2] as int % 4 * 64 + ds[k + 3] as int
  }

  function BytesOf(ds: seq<Digit>): (b: seq<byte>)
    ensures |b| == ByteCount(|ds|)
    ensures forall i :: 0 <= i < |b| ==> b[i] == Octet(ds, i)
  {
    seq(ByteCount(|ds|), i requires 0 <= i < ByteCount(|ds|) => Octet(ds, i))
  }

  /** Bits of the last digit beyond the whole bytes, and their number. */
  function LeftBits(n: nat): nat { if n % 4 == 0 then 0 else 8 - 2 * (n % 4) }

  function Leftover(ds: seq<Digit>): nat {
    if |ds| % 4 == 2 then ds[|ds| - 1] % 16
    else if |ds| % 4 == 3 then ds[|ds| - 1] % 4
    else if |ds| % 4 == 1 then ds[|ds| - 1]
    else 0
  }

  datatype Body = Body(ds: seq<Digit>, pos: nat, overflow: bool)

  /** The digits read from position `pos` on, where reading stops, and whether the output was full. */
  function Read(s: seq<Char>, ignore: Option<seq<Char>>, urlsafe: bool, cap: nat, pos: nat, ds: seq<Digit>): Body
    requires pos <= |s|
    decreases |s| - pos
  {
    if pos == |s| then Body(ds, pos, false) else
    var d := DigitOf(s[pos], urlsafe);
    if d == 0xFF then
      if Ignored(ignore, s[pos]) then Read(s, ignore, urlsafe, cap, pos + 1, ds) else Body(ds, pos, false)
    else
      var more := ds + [d];
      if ByteCount(|more|) > ByteCount(|ds|) && ByteCount(|ds|) >= cap then Body(more, pos, true)
      else Read(s, ignore, urlsafe, cap, pos + 1, more)
  }

  /** Where skipping `k` padding characters ends, and whether they were all there. */
  function SkipPads(s: seq<Char>, ignore: Option<seq<Char>>, pos: nat, k: nat): (bool, nat)
    requires pos <= |s|
    decreases |s| - pos
  {
    if k == 0 then (true, pos)
    else if pos == |s| then (false, pos)
    else if s[pos] == Pad() then SkipPads(s, ignore, pos + 1, k - 1)
    else if Ignored(ignore, s[pos]) then SkipPads(s, ignore, pos + 1, k)
    else (false, pos)
  }

  function SkipIgnored(s: seq<Char>, ignore: Option<seq<Char>>, pos: nat): (p: nat)
    requires pos <= |s|
    ensures pos <= p <= |s|
    decreases |s| - pos
  {
    if pos < |s| && Ignored(ignore, s[pos]) then SkipIgnored(s, ignore, pos + 1) else pos
  }

  /** Return value, number of bytes reported, end position, and the bytes. */
  datatype Result = Result(ret: int, binLen: nat, end: nat, bytes: seq<byte>)

  function Ended(s: seq<Char>, wantEnd: bool, ret: int, bytes: seq<byte>, end: nat): Result {
    Result(if !wantEnd && end != |s| then -1 else ret, |bytes|, end, bytes)
  }

  lemma {:induction false} ReadWithin(s: seq<Char>, ignore: Option<seq<Char>>, urlsafe: bool, cap: nat, pos: nat,
                                      ds: seq<Digit>)
    requires pos <= |s|
    ensures Read(s, ignore, urlsafe, cap, pos, ds).pos <= |s|
    decreases |s| - pos
  {
    hide DigitOf;
    if pos < |s| {
      var d := DigitOf(s[pos], urlsafe);
      if d == 0xFF {
        ReadWithin(s, ignore, urlsafe, cap, pos + 1, ds);
      } else {
        ReadWithin(s, ignore, urlsafe, cap, pos + 1, ds + [d]);
      }
    }
  }

  lemma {:induction false} PadsWithin(s: seq<Char>, ignore: Option<seq<Char>>, pos: nat, k: nat)
    requires pos <= |s|
    ensures SkipPads(s, ignore, pos, k).1 <= |s|
    decreases |s| - pos
  {
    if k > 0 && pos < |s| {
      PadsWithin(s, ignore, pos + 1, if s[pos] == Pad() then k - 1 else k);
    }
  }

  /** `sodium_base642bin` as a function of its inputs. */
  function Decoded(s: seq<Char>, ignore: Option<seq<Char>>, cap: nat, wantEnd: bool, v: Variant): Result {
    ReadWithin(s, ignore, v.urlsafe, cap, 0, []);
    var b := Read(s, ignore, v.urlsafe, cap, 0, []);
    if b.overflow || LeftBits(|b.ds|) > 4 || Leftover(b.ds) != 0 then Ended(s, wantEnd, -1, [], b.pos) else
    var (ok, p) := if v.padded then SkipPads(s, ignore, b.pos, LeftBits(|b.ds|) / 2) else (true, b.pos);
    PadsWithin(s, ignore, b.pos, LeftBits(|b.ds|) / 2);
    if !ok then Ended(s, wantEnd, -1, [], p)
    else Ended(s, wantEnd, 0, BytesOf(b.ds), SkipIgnored(s, ignore, p))
  }

  // ------------------------------------------------------------- decoder

  /** The accumulator holds the leftover bits. */
  predicate Kept(ds: seq<Digit>, acc: u32, accLen: nat) {
    accLen == LeftBits(|ds|) && acc % Pow2(accLen) == Leftover(ds)
  }

  /** `(acc << 6) + d`. */
  function Shift6(acc: u32, d: Digit): u32 { Wrap32(Wrap32(acc * 64) as int + d) }

  /** `(acc >> n) & 0xFF`. */
  function Take8(acc: u32, n: nat): byte { acc / Pow2(n) % 256 }

  lemma Shift6Value(acc: u32, d: Digit)
    ensures Shift6(acc, d) % 4096 == acc % 64 * 64 + d && Shift6(acc, d) % 1024 == acc % 16 * 64 + d
    ensures Shift6(acc, d) % 256 == acc % 4 * 64 + d && Shift6(acc, d) % 64 == d
  {
    var x := acc * 64;
    var y := Wrap32(x) as int + d;
    var q := x / U32 + y / U32;
    var r := Shift6(acc, d);
    assert r == x + d - q * U32;
    ModFrom(r, acc / 64 - q * 0x10_0000, acc % 64 * 64 + d, 4096);
    ModFrom(r, acc / 16 - q * 0x40_0000, acc % 16 * 64 + d, 1024);
    ModFrom(r, acc / 4 - q * 0x100_0000, acc % 4 * 64 + d, 256);
    ModFrom(r, acc - q * 0x400_0000, d, 64);
  }

  lemma Take8Low(acc: u32)
    ensures Take8(acc, 4) == acc % 4096 / 16 && Take8(acc, 2) == acc % 1024 / 4 && Take8(acc, 0) == acc % 256
    ensures acc % 16 == acc % 4096 % 16 && acc % 4 == acc % 1024 % 4
  {
    SmallPowers();
    var k, m := acc / 4096, acc % 4096;
    DivModUnique(256 * k + m / 16, m % 16, 16);
    ModFrom(256 * k + m / 16, k, m / 16, 256);
    var k', m' := acc / 1024, acc % 1024;
    DivModUnique(256 * k' + m' / 4, m' % 4, 4);
    ModFrom(256 * k' + m' / 4, k', m' / 4, 256);
  }

  /** The accumulator after one more digit, by the number of bits it held. */
  lemma NextBits(acc: u32, d: Digit)
    ensures var a := Shift6(acc, d);
            && a % 64 == d
            && Take8(a, 4) == acc % 64 * 4 + d / 16 && a % 16 == d % 16
            && Take8(a, 2) == acc % 16 * 16 + d / 4 && a % 4 == d % 4
            && Take8(a, 0) == acc % 4 * 64 + d
  {
    hide Shift6, Take8;
    Shift6Value(acc, d);
    Take8Low(Shift6(acc, d));
  }

  /** One more digit: the accumulator keeps its bits, and a whole byte comes out when it is full. */
  lemma NextDigitRead(ds: seq<Digit>, d: Digit, acc: u32, accLen: nat)
    requires Kept(ds, acc, accLen)
    ensures var more, a := ds + [d], Shift6(acc, d);
            if accLen + 6 >= 8
            then Kept(more, a, accLen - 2) && ByteCount(|more|) == ByteCount(|ds|) + 1
                 && Take8(a, accLen - 2) == Octet(more, ByteCount(|ds|))
            else Kept(more, a, accLen + 6) && ByteCount(|more|) == ByteCount(|ds|)
  {
    hide Shift6, Take8, ByteCount;
    SmallPowers();
    NextBits(acc, d);
    NextCounts(|ds|);
  }

  lemma NextCounts(n: nat)
    ensures n % 4 == 0 ==> (n + 1) % 4 == 1 && ByteCount(n + 1) == ByteCount(n)
    ensures n % 4 != 0
        ==> ByteCount(n + 1) == ByteCount(n) + 1 && 4 * (ByteCount(n) / 3) == n - n % 4 && ByteCount(n) % 3 == n % 4 - 1
    ensures (n + 1) % 4 == if n % 4 == 3 then 0 else n % 4 + 1
  {
  }

  lemma OctetsExtend(ds: seq<Digit>, d: Digit)
    ensures ByteCount(|ds + [d]|) >= ByteCount(|ds|)
    ensures forall i :: 0 <= i < ByteCount(|ds|) ==> Octet(ds + [d], i) == Octet(ds, i)
  {
    NextCounts(|ds|);
  }

  /** `_sodium_base642bin_skip_padding`. */
  method SkipPadding(s: seq<Char>, start: nat, ignore: Option<seq<Char>>, paddingLen: nat) returns (ok: bool, pos: nat)
    requires start <= |s|
    ensures (ok, pos) == SkipPads(s, ignore, start, paddingLen) && pos <= |s|
  {
    pos := start;
    var left := paddingLen;
    while left > 0
      invariant pos <= |s| && SkipPads(s, ignore, pos, left) == SkipPads(s, ignore, start, paddingLen)
      decreases |s| - pos
    {
      if pos >= |s| {
        return false, pos;
      }
      var c := s[pos];
      if c == Pad() {
        left := left - 1;
      } else if !Ignored(ignore, c) {
        return false, pos;
      }
      pos := pos + 1;
    }
    ok := true;
  }

  /** The digit loop: digits and bytes read, accumulator, position, and whether the output was full. */
  method ReadDigits(bin: array<byte>, s: seq<Char>, ignore: Option<seq<Char>>, urlsafe: bool)
    returns (ghost ds: seq<Digit>, acc: u32, accLen: nat, pos: nat, binPos: nat, overflow: bool)
    modifies bin
    ensures pos <= |s| && Read(s, ignore, urlsafe, bin.Length, 0, []) == Body(ds, pos, overflow)
    ensures Kept(ds, acc, accLen)
    ensures !overflow ==> binPos == ByteCount(|ds|) <= bin.Length && bin[..binPos] == BytesOf(ds)
  {
    hide Shift6, Take8, Kept, DigitOf, CharToByte, BytesOf, Octet, ByteCount;
    ds, acc, accLen, pos, binPos, overflow := [], 0, 0, 0, 0, false;
    NothingKept();
    while pos < |s|
      invariant pos <= |s| && Kept(ds, acc, accLen) && !overflow
      invariant Read(s, ignore, urlsafe, bin.Length, pos, ds) == Read(s, ignore, urlsafe, bin.Length, 0, [])
      invariant binPos == ByteCount(|ds|) <= bin.Length && bin[..binPos] == BytesOf(ds)
    {
      var c := s[pos];
      CharToByteIsDigit(c, urlsafe);
      var d := CharToByte(c, urlsafe);
      if d == 0xFF {
        if Ignored(ignore, c) {
          pos := pos + 1;
          continue;
        }
        break;
      }
      NextDigitRead(ds, d, acc, accLen);
      BytesExtend(ds, d);
      ghost var before := BytesOf(ds);
      ds := ds + [d];
      acc := Shift6(acc, d);
      accLen := accLen + 6;
      if accLen >= 8 {
        accLen := accLen - 8;
        if binPos >= bin.Length {
          overflow := true;
          break;
        }
        bin[binPos] := Take8(acc, accLen);
        assert bin[..binPos] == before;
        assert bin[..binPos + 1] == bin[..binPos] + [bin[binPos]];
        binPos := binPos + 1;
      }
      pos := pos + 1;
    }
  }

  lemma NothingKept()
    ensures Kept([], 0, 0) && ByteCount(0) == 0 && BytesOf([]) == []
  {
    SmallPowers();
  }

  lemma BytesExtend(ds: seq<Digit>, d: Digit)
    ensures ByteCount(|ds + [d]|) == ByteCount(|ds|) ==> BytesOf(ds + [d]) == BytesOf(ds)
    ensures ByteCount(|ds + [d]|) == ByteCount(|ds|) + 1 ==>
        BytesOf(ds + [d]) == BytesOf(ds) + [Octet(ds + [d], ByteCount(|ds|))]
  {
    hide Octet, ByteCount;
    OctetsExtend(ds, d);
  }

  /** `sodium_base642bin`. */
  method Base642Bin(bin: array<byte>, s: seq<Char>, ignore: Option<seq<Char>>, wantEnd: bool, variant: u32)
    returns (aborted: bool, ret: int, binLen: nat, end: nat)
    modifies bin
    ensures aborted <==> VariantOf(variant).None?
    ensures aborted ==> bin[..] == old(bin[..])
    ensures !aborted ==>
        var r := Decoded(s, ignore, bin.Length, wantEnd, VariantOf(variant).value);
        ret == r.ret && binLen == r.binLen <= bin.Length && end == r.end && bin[..binLen] == r.bytes
  {
    hide Kept, BytesOf, ByteCount, Read, SkipPads, Leftover, LeftBits;
    var known := VariantOf(variant);
    if known.None? {
      return true, -1, 0, 0;
    }
    var v := known.value;
    aborted, ret, end := false, 0, 0;
    ghost var ds;
    var acc, accLen, pos, binPos, overflow;
    ds, acc, accLen, pos, binPos, overflow := ReadDigits(bin, s, ignore, v.urlsafe);
    if overflow {
      ret := -1;
    }
    KeptBits(ds, acc, accLen);
    if accLen > 4 || acc % Pow2(accLen) != 0 {
      ret := -1;
    } else if ret == 0 && v.padded {
      var ok;
      ok, pos := SkipPadding(s, pos, ignore, accLen / 2);
      if !ok {
        ret := -1;
      }
    }
    if ret != 0 {
      binPos := 0;
    } else if ignore.Some? {
      ghost var start := pos;
      while pos < |s| && Ignored(ignore, s[pos])
        invariant pos <= |s| && SkipIgnored(s, ignore, pos) == SkipIgnored(s, ignore, start)
      {
        pos := pos + 1;
      }
    }
    if !wantEnd && pos != |s| {
      ret := -1;
    }
    binLen, end := binPos, pos;
  }

  lemma KeptBits(ds: seq<Digit>, acc: u32, accLen: nat)
    requires Kept(ds, acc, accLen)
    ensures accLen == LeftBits(|ds|) && acc % Pow2(accLen) == Leftover(ds)
  {
  }

  /** What is read without an overflow fits. */
  lemma {:induction false} ReadFits(s: seq<Char>, ignore: Option<seq<Char>>, urlsafe: bool, cap: nat, pos: nat,
                                    ds: seq<Digit>)
    requires pos <= |s| && ByteCount(|ds|) <= cap
    ensures var b := Read(s, ignore, urlsafe, cap, pos, ds); !b.overflow ==> ByteCount(|b.ds|) <= cap
    decreases |s| - pos
  {
    hide DigitOf, ByteCount;
    if pos < |s| {
      var d := DigitOf(s[pos], urlsafe);
      if d == 0xFF {
        if Ignored(ignore, s[pos]) {
          ReadFits(s, ignore, urlsafe, cap, pos + 1, ds);
        }
      } else {
        NextCounts(|ds|);
        if !(ByteCount(|ds + [d]|) > ByteCount(|ds|) && ByteCount(|ds|) >= cap) {
          ReadFits(s, ignore, urlsafe, cap, pos + 1, ds + [d]);
        }
      }
    }
  }

  lemma DecodedFits(s: seq<Char>, ignore: Option<seq<Char>>, cap: nat, wantEnd: bool, v: Variant)
    ensures |Decoded(s, ignore, cap, wantEnd, v).bytes| <= cap
  {
    hide Read, ByteCount, LeftBits, Leftover;
    NoBytes();
    ReadFits(s, ignore, v.urlsafe, cap, 0, []);
  }

  lemma NoBytes()
    ensures ByteCount(0) == 0
  {
  }
}
