/**
 Decoder and encoder of Base64 undo each other.
 */
module Base64Laws {
  import opened Machine
  import opened Base64Chars
  import opened Base64
  import opened Base64Decode

  // ------------------------------------------------------ digits and bytes

  function Sextets(bin: seq<byte>): (ds: seq<Digit>)
    ensures |ds| == DigitCount(|bin|) && forall k :: 0 <= k < |ds| ==> ds[k] == Sextet(bin, k)
  {
    seq(DigitCount(|bin|), k requires 0 <= k => Sextet(bin, k))
  }

  lemma Quads(n: nat)
    ensures ByteCount(DigitCount(n)) == n
    ensures LeftBits(DigitCount(n)) <= 4 && LeftBits(DigitCount(n)) / 2 == PadCount(n)
    ensures DigitCount(n) % 4 == if n % 3 == 0 then 0 else n % 3 + 1
  {
  }

  lemma Triples(m: nat)
    requires LeftBits(m) <= 4
    ensures DigitCount(ByteCount(m)) == m && PadCount(ByteCount(m)) == LeftBits(m) / 2
  {
  }

  /** The bytes of the digits of some data are that data. */
  lemma BytesOfSextets(bin: seq<byte>)
    ensures BytesOf(Sextets(bin)) == bin
    ensures Leftover(Sextets(bin)) == 0
  {
    hide Sextet, Octet, ByteCount, DigitCount, LeftBits;
    var n, ds := |bin|, Sextets(bin);
    Quads(n);
    forall i | 0 <= i < n ensures Octet(ds, i) == bin[i] {
      OctetOfSextets(bin, i);
    }
    LeftoverOfSextets(bin);
  }

  /** Three bytes cut into four digits and put together again. */
  lemma Regroup3(a: byte, b: byte, c: byte)
    ensures a / 4 * 4 + (a % 4 * 16 + b / 16) / 16 == a
    ensures (a % 4 * 16 + b / 16) % 16 * 16 + (b % 16 * 4 + c / 64) / 4 == b
    ensures (b % 16 * 4 + c / 64) % 4 * 64 + c % 64 == c
  {
  }

  lemma SextetCases(bin: seq<byte>, g: nat)
    ensures Sextet(bin, 4 * g) == ByteAt(bin, 3 * g) / 4
    ensures Sextet(bin, 4 * g + 1) == ByteAt(bin, 3 * g) as int % 4 * 16 + ByteAt(bin, 3 * g + 1) as int / 16
    ensures Sextet(bin, 4 * g + 2) == ByteAt(bin, 3 * g + 1) as int % 16 * 4 + ByteAt(bin, 3 * g + 2) as int / 64
    ensures Sextet(bin, 4 * g + 3) == ByteAt(bin, 3 * g + 2) % 64
  {
    hide ByteAt;
    assert (4 * g) / 4 == g && (4 * g + 1) / 4 == g && (4 * g + 2) / 4 == g && (4 * g + 3) / 4 == g;
    assert (4 * g) % 4 == 0 && (4 * g + 1) % 4 == 1 && (4 * g + 2) % 4 == 2 && (4 * g + 3) % 4 == 3;
  }

  lemma OctetCases(ds: seq<Digit>, i: nat)
    requires i < ByteCount(|ds|)
    ensures var g := i / 3;
            4 * g + i % 3 + 1 < |ds| &&
            Octet(ds, i) == if i % 3 == 0 then ds[4 * g] as int * 4 + ds[4 * g + 1] as int / 16
                            else if i % 3 == 1 then ds[4 * g + 1] as int % 16 * 16 + ds[4 * g + 2] as int / 4
                            else ds[4 * g + 2] as int % 4 * 64 + ds[4 * g + 3] as int
  {
  }

  lemma OctetOfSextets(bin: seq<byte>, i: nat)
    requires i < |bin|
    ensures i < ByteCount(|Sextets(bin)|) && Octet(Sextets(bin), i) == bin[i]
  {
    hide LeftBits, Octet, Sextet, ByteAt, ByteCount, DigitCount;
    Quads(|bin|);
    var g := i / 3;
    OctetCases(Sextets(bin), i);
    SextetCases(bin, g);
    Regroup3(ByteAt(bin, 3 * g), ByteAt(bin, 3 * g + 1), ByteAt(bin, 3 * g + 2));
    InRange(bin, i);
  }

  lemma InRange(bin: seq<byte>, i: nat)
    requires i < |bin|
    ensures ByteAt(bin, 3 * (i / 3) + i % 3) == bin[i]
  {
  }

  lemma LeftoverOfSextets(bin: seq<byte>)
    ensures Leftover(Sextets(bin)) == 0
  {
    hide LeftBits;
    Quads(|bin|);
  }

  /** The digits of the decoded bytes are the digits read, when no bits are left over. */
  lemma SextetsOfBytes(ds: seq<Digit>)
    requires LeftBits(|ds|) <= 4 && Leftover(ds) == 0
    ensures Sextets(BytesOf(ds)) == ds
  {
    hide Sextet, Octet, ByteCount, DigitCount;
    Triples(|ds|);
    forall k | 0 <= k < |ds| ensures Sextet(BytesOf(ds), k) == ds[k] {
      SextetOfBytes(ds, k);
    }
  }

  /** Four digits put together into three bytes and cut again. */
  lemma Regroup4(p: Digit, q: Digit, r: Digit, t: Digit)
    ensures (p * 4 + q / 16) / 4 == p && (p * 4 + q / 16) % 4 * 16 + (q % 16 * 16 + r / 4) / 16 == q
    ensures (q % 16 * 16 + r / 4) % 16 * 4 + (r % 4 * 64 + t) / 64 == r && (r % 4 * 64 + t) % 64 == t
    ensures q % 16 == 0 ==> (p * 4 + q / 16) % 4 * 16 == q
    ensures r % 4 == 0 ==> (q % 16 * 16 + r / 4) % 16 * 4 == r
  {
  }

  function DigitAt(ds: seq<Digit>, k: nat): Digit { if k < |ds| then ds[k] else 0 }

  /** The three bytes of group `g`, zero beyond the end. */
  lemma GroupBytes(ds: seq<Digit>, g: nat)
    requires LeftBits(|ds|) <= 4 && Leftover(ds) == 0 && 4 * g < |ds|
    ensures var b := BytesOf(ds);
            var p, q, r, t := DigitAt(ds, 4 * g), DigitAt(ds, 4 * g + 1), DigitAt(ds, 4 * g + 2),
                DigitAt(ds, 4 * g + 3);
            && ByteAt(b, 3 * g) == p as int * 4 + q as int / 16
            && ByteAt(b, 3 * g + 1) == q as int % 16 * 16 + r as int / 4
            && ByteAt(b, 3 * g + 2) == r as int % 4 * 64 + t as int
  {
    hide Octet;
    assert (3 * g) / 3 == g && (3 * g + 1) / 3 == g && (3 * g + 2) / 3 == g;
    assert (3 * g) % 3 == 0 && (3 * g + 1) % 3 == 1 && (3 * g + 2) % 3 == 2;
    var n := ByteCount(|ds|);
    GroupEnd(|ds|, g);
    OctetCases(ds, 3 * g);
    if 3 * g + 1 < n {
      OctetCases(ds, 3 * g + 1);
    }
    if 3 * g + 2 < n {
      OctetCases(ds, 3 * g + 2);
    }
  }

  lemma GroupEnd(m: nat, g: nat)
    requires LeftBits(m) <= 4 && 4 * g < m
    ensures 3 * g < ByteCount(m)
    ensures 3 * g + 1 >= ByteCount(m) <==> m == 4 * g + 2
    ensures 3 * g + 2 >= ByteCount(m) <==> m == 4 * g + 2 || m == 4 * g + 3
  {
  }

  lemma SextetOfBytes(ds: seq<Digit>, k: nat)
    requires LeftBits(|ds|) <= 4 && Leftover(ds) == 0 && k < |ds|
    ensures Sextet(BytesOf(ds), k) == ds[k]
  {
    hide LeftBits, Octet, Sextet, ByteAt, ByteCount, DigitCount, Leftover, BytesOf;
    var g := k / 4;
    GroupBytes(ds, g);
    SextetCases(BytesOf(ds), g);
    Regroup4(DigitAt(ds, 4 * g), DigitAt(ds, 4 * g + 1), DigitAt(ds, 4 * g + 2), DigitAt(ds, 4 * g + 3));
    assert k == 4 * g + k % 4;
  }

  // ---------------------------------------------------------- round trip

  lemma AlphabetLaws(x: Digit, urlsafe: bool)
    ensures DigitOf(Alphabet(x, urlsafe), urlsafe) == x && 0 < Alphabet(x, urlsafe) < 128
    ensures DigitOf(Pad(), urlsafe) == 0xFF
  {
  }

  lemma DigitLaws(c: Char, urlsafe: bool)
    requires 0 <= c && DigitOf(c, urlsafe) != 0xFF
    ensures Alphabet(DigitOf(c, urlsafe), urlsafe) == c
  {
  }

  function LettersOf(ds: seq<Digit>, urlsafe: bool): (s: seq<Char>)
    ensures |s| == |ds| && forall k :: 0 <= k < |ds| ==> s[k] == Alphabet(ds[k], urlsafe)
  {
    seq(|ds|, k requires 0 <= k < |ds| => Alphabet(ds[k], urlsafe))
  }

  /** Reading the letters of some digits gives the digits, or fills the output. */
  lemma {:induction false} ReadLetters(s: seq<Char>, ignore: Option<seq<Char>>, urlsafe: bool, cap: nat, pos: nat,
                                       ds: seq<Digit>)
    requires pos <= |ds| <= |s| && s[..|ds|] == LettersOf(ds, urlsafe) && ByteCount(pos) <= cap
    ensures ByteCount(|ds|) <= cap ==>
        Read(s, ignore, urlsafe, cap, pos, ds[..pos]) == Read(s, ignore, urlsafe, cap, |ds|, ds)
    ensures ByteCount(|ds|) > cap ==> Read(s, ignore, urlsafe, cap, pos, ds[..pos]).overflow
    decreases |ds| - pos
  {
    hide DigitOf, Alphabet, ByteCount;
    if pos == |ds| {
      assert ds[..pos] == ds;
    } else {
      assert s[pos] == s[..|ds|][pos];
      AlphabetLaws(ds[pos], urlsafe);
      assert ds[..pos + 1] == ds[..pos] + [ds[pos]];
      CountGrows(pos, |ds|);
      if ByteCount(pos + 1) <= cap {
        ReadLetters(s, ignore, urlsafe, cap, pos + 1, ds);
      }
    }
  }

  lemma CountGrows(a: nat, b: nat)
    requires a < b
    ensures ByteCount(a) <= ByteCount(a + 1) <= ByteCount(a) + 1 && ByteCount(a + 1) <= ByteCount(b)
  {
  }

  /** Reading stops at the padding, or runs through it when `=` is to be ignored. */
  lemma {:induction false} ReadPads(s: seq<Char>, ignore: Option<seq<Char>>, urlsafe: bool, cap: nat, pos: nat,
                                    ds: seq<Digit>)
    requires pos <= |s| && forall i :: pos <= i < |s| ==> s[i] == Pad()
    ensures Read(s, ignore, urlsafe, cap, pos, ds) == Body(ds, if Ignored(ignore, Pad()) then |s| else pos, false)
    decreases |s| - pos
  {
    hide Ignored;
    if pos < |s| && Ignored(ignore, Pad()) {
      ReadPads(s, ignore, urlsafe, cap, pos + 1, ds);
    }
  }

  lemma {:induction false} SkipAllPads(s: seq<Char>, ignore: Option<seq<Char>>, pos: nat, k: nat)
    requires pos + k == |s| && forall i :: pos <= i < |s| ==> s[i] == Pad()
    ensures SkipPads(s, ignore, pos, k) == (true, |s|)
    decreases k
  {
    if k > 0 {
      SkipAllPads(s, ignore, pos + 1, k - 1);
    }
  }

  lemma EncodedParts(bin: seq<byte>, v: Variant)
    ensures var s, n := Encoded(bin, v), DigitCount(|bin|);
            && n <= |s| && s[..n] == LettersOf(Sextets(bin), v.urlsafe)
            && |s| == n + (if v.padded then PadCount(|bin|) else 0)
            && forall i :: n <= i < |s| ==> s[i] == Pad()
  {
    hide Sextet, Alphabet, DigitCount;
    assert Letters(bin, DigitCount(|bin|), v) == LettersOf(Sextets(bin), v.urlsafe);
  }

  lemma ReadEncoded(bin: seq<byte>, ignore: Option<seq<Char>>, cap: nat, v: Variant)
    ensures var s := Encoded(bin, v);
            var b := Read(s, ignore, v.urlsafe, cap, 0, []);
            if |bin| > cap then b.overflow
            else b == Body(Sextets(bin), if Ignored(ignore, Pad()) then |s| else DigitCount(|bin|), false)
  {
    hide Read, DigitOf, Ignored, Encoded, BytesOf, ByteCount, DigitCount, LeftBits, Sextets, LettersOf;
    var s, ds := Encoded(bin, v), Sextets(bin);
    EncodedParts(bin, v);
    Quads(|bin|);
    NothingKept();
    assert ds[..0] == [];
    ReadLetters(s, ignore, v.urlsafe, cap, 0, ds);
    ReadPads(s, ignore, v.urlsafe, cap, |ds|, ds);
  }

  /** What the encoder wrote for `bin` is accepted exactly when there is room and padding is not to be ignored;
      it then decodes to `bin` and all of it is consumed. */
  lemma RoundTrip(bin: seq<byte>, ignore: Option<seq<Char>>, cap: nat, wantEnd: bool, v: Variant)
    ensures var s := Encoded(bin, v);
            var r := Decoded(s, ignore, cap, wantEnd, v);
            && (r.ret == 0 <==> |bin| <= cap && !(v.padded && |bin| % 3 != 0 && Ignored(ignore, Pad())))
            && (r.ret == 0 ==> r.bytes == bin && r.binLen == |bin| && r.end == |s|)
  {
    hide Read, SkipPads, Ignored, Encoded, BytesOf, DigitCount, Leftover, LeftBits, Sextets;
    var s, n := Encoded(bin, v), DigitCount(|bin|);
    ReadEncoded(bin, ignore, cap, v);
    EncodedParts(bin, v);
    Quads(|bin|);
    BytesOfSextets(bin);
    if PadCount(|bin|) > 0 {
      SkipAtEnd(s, ignore, PadCount(|bin|));
    } else {
      SkipAllPads(s, ignore, |s|, 0);
    }
    SkipAllPads(s, ignore, n, |s| - n);
  }

  /** One byte, padded, read with `=` to be ignored: the encoding is rejected. */
  lemma PaddingIgnored(urlsafe: bool, wantEnd: bool)
    ensures Decoded(Encoded([0xFC], Variant(urlsafe, true)), Some([Pad()]), 1, wantEnd, Variant(urlsafe, true)).ret != 0
  {
    hide Decoded, Encoded;
    RoundTrip([0xFC], Some([Pad()]), 1, wantEnd, Variant(urlsafe, true));
  }

  /** The same inside a longer text, without padding: reading stops where no digit follows. */
  lemma RoundTripWithin(bin: seq<byte>, rest: seq<Char>, cap: nat, v: Variant)
    requires !v.padded && |bin| <= cap && (rest == [] || DigitOf(rest[0], v.urlsafe) == 0xFF)
    ensures var text := Encoded(bin, v);
            Decoded(text + rest, None, cap, true, v) == Result(0, |bin|, |text|, bin)
  {
    hide Read, DigitOf, Encoded, BytesOf, ByteCount, DigitCount, LeftBits, Leftover, Sextets, LettersOf;
    var text, ds := Encoded(bin, v), Sextets(bin);
    var s := text + rest;
    EncodedParts(bin, v);
    Quads(|bin|);
    NothingKept();
    BytesOfSextets(bin);
    assert ds[..0] == [] && s[..|ds|] == text[..|ds|];
    ReadLetters(s, None, v.urlsafe, cap, 0, ds);
    ReadStops(s, v.urlsafe, cap, |ds|, ds);
  }

  lemma ReadStops(s: seq<Char>, urlsafe: bool, cap: nat, pos: nat, ds: seq<Digit>)
    requires pos <= |s| && (pos < |s| ==> DigitOf(s[pos], urlsafe) == 0xFF)
    ensures Read(s, None, urlsafe, cap, pos, ds) == Body(ds, pos, false)
  {
  }

  lemma SkipAtEnd(s: seq<Char>, ignore: Option<seq<Char>>, k: nat)
    requires k > 0
    ensures SkipPads(s, ignore, |s|, k) == (false, |s|)
  {
  }

  // ----------------------------------------------------------- canonicity

  /** Without ignored characters the digits are those of the characters read, one each. */
  lemma {:induction false} ReadPlain(s: seq<Char>, urlsafe: bool, cap: nat, pos: nat, ds: seq<Digit>)
    requires pos == |ds| <= |s| && forall i :: 0 <= i < pos ==> DigitOf(s[i], urlsafe) == ds[i]
    ensures var b := Read(s, None, urlsafe, cap, pos, ds);
            !b.overflow ==>
              b.pos == |b.ds| <= |s| && forall i :: 0 <= i < b.pos ==> DigitOf(s[i], urlsafe) == b.ds[i]
    decreases |s| - pos
  {
    hide DigitOf, ByteCount;
    if pos < |s| && DigitOf(s[pos], urlsafe) != 0xFF {
      ReadPlain(s, urlsafe, cap, pos + 1, ds + [DigitOf(s[pos], urlsafe)]);
    }
  }

  lemma {:induction false} SkipPlain(s: seq<Char>, pos: nat, k: nat)
    requires pos <= |s| && SkipPads(s, None, pos, k).0
    ensures SkipPads(s, None, pos, k).1 == pos + k <= |s| && forall i :: pos <= i < pos + k ==> s[i] == Pad()
    decreases k
  {
    if k > 0 {
      SkipPlain(s, pos + 1, k - 1);
    }
  }

  predicate Plain(s: seq<Char>) { forall i :: 0 <= i < |s| ==> 0 <= s[i] }

  lemma EncodedIsPlain(bin: seq<byte>, v: Variant)
    ensures Plain(Encoded(bin, v))
  {
    hide Alphabet, Encoded, DigitCount, Sextet;
    var e, ds := Encoded(bin, v), Sextets(bin);
    EncodedParts(bin, v);
    forall i | 0 <= i < |e| ensures 0 <= e[i] {
      if i < |ds| {
        assert e[i] == e[..|ds|][i];
        AlphabetLaws(ds[i], v.urlsafe);
      }
    }
  }

  /** Accepted text: its digits, then as many padding characters as are due. */
  lemma CanonicalShape(s: seq<Char>, cap: nat, wantEnd: bool, v: Variant)
    requires Decoded(s, None, cap, wantEnd, v).ret == 0
    ensures var r, b := Decoded(s, None, cap, wantEnd, v), Read(s, None, v.urlsafe, cap, 0, []);
            && LeftBits(|b.ds|) <= 4 && Leftover(b.ds) == 0 && r.bytes == BytesOf(b.ds)
            && r.end == |b.ds| + (if v.padded then LeftBits(|b.ds|) / 2 else 0) <= |s|
            && (forall i :: 0 <= i < |b.ds| ==> DigitOf(s[i], v.urlsafe) == b.ds[i])
            && (forall i :: |b.ds| <= i < r.end ==> s[i] == Pad())
            && (wantEnd || r.end == |s|)
  {
    hide Read, SkipPads, DigitOf, BytesOf, ByteCount, Leftover, LeftBits;
    var b := Read(s, None, v.urlsafe, cap, 0, []);
    ReadPlain(s, v.urlsafe, cap, 0, []);
    if v.padded {
      SkipPlain(s, b.pos, LeftBits(|b.ds|) / 2);
    }
  }

  /** Without ignored characters, accepted text is the encoding of its bytes exactly when no character is negative. */
  lemma Canonical(s: seq<Char>, cap: nat, wantEnd: bool, v: Variant)
    requires Decoded(s, None, cap, wantEnd, v).ret == 0
    ensures var r := Decoded(s, None, cap, wantEnd, v);
            r.end <= |s| && (s[..r.end] == Encoded(r.bytes, v) <==> Plain(s[..r.end]))
            && (wantEnd || r.end == |s|)
  {
    hide Read, SkipPads, DigitOf, BytesOf, ByteCount, DigitCount, Leftover, LeftBits, Sextets, Encoded;
    var b := Read(s, None, v.urlsafe, cap, 0, []);
    CanonicalShape(s, cap, wantEnd, v);
    var r := Decoded(s, None, cap, wantEnd, v);
    EncodedParts(r.bytes, v);
    SextetsOfBytes(b.ds);
    Triples(|b.ds|);
    var t := s[..r.end];
    assert forall i :: 0 <= i < |t| ==> t[i] == s[i];
    SameText(t, b.ds, r.bytes, v);
  }

  lemma SameText(t: seq<Char>, ds: seq<Digit>, bin: seq<byte>, v: Variant)
    requires |ds| <= |t| && ds == Sextets(bin) && |t| == |Encoded(bin, v)|
    requires forall i :: 0 <= i < |ds| ==> DigitOf(t[i], v.urlsafe) == ds[i]
    requires forall i :: |ds| <= i < |t| ==> t[i] == Pad()
    ensures t == Encoded(bin, v) <==> Plain(t)
  {
    hide DigitOf, Alphabet, Sextets, Encoded, DigitCount;
    var e := Encoded(bin, v);
    EncodedParts(bin, v);
    forall i | 0 <= i < |t| ensures 0 <= e[i] && (0 <= t[i] ==> t[i] == e[i]) {
      if i < |ds| {
        assert e[i] == e[..|ds|][i];
        AlphabetLaws(ds[i], v.urlsafe);
        if 0 <= t[i] {
          DigitLaws(t[i], v.urlsafe);
        }
      }
    }
  }

  /** A negative character is read as the digit 63: two accepted texts for the byte 0xFC. */
  lemma NegativeAccepted()
    ensures var v := Variant(false, true);
            var t, u := [-1, 'A' as int, Pad(), Pad()], ['/' as int, 'A' as int, Pad(), Pad()];
            Decoded(t, None, 1, false, v) == Decoded(u, None, 1, false, v) == Result(0, 1, 4, [0xFC])
  {
    NegativeRead(-1);
    NegativeRead('/' as int);
  }

  lemma NegativeDigits(s: seq<Char>)
    requires |s| == 4 && (s[0] == -1 || s[0] == '/' as int) && s[1..] == ['A' as int, Pad(), Pad()]
    ensures Read(s, None, false, 1, 0, []) == Body([63, 0], 2, false)
  {
    assert s[1] == 'A' as int && s[2] == Pad();
    ReadStops(s, false, 1, 2, [63, 0]);
    assert [] + [63] == [63] && [63] + [0] == [63, 0];
    assert Read(s, None, false, 1, 1, [63]) == Read(s, None, false, 1, 2, [63, 0]);
  }

  lemma NegativePads(s: seq<Char>)
    requires |s| == 4 && s[2] == s[3] == Pad()
    ensures SkipPads(s, None, 2, 2) == (true, 4)
  {
    assert SkipPads(s, None, 3, 1) == SkipPads(s, None, 4, 0) == (true, 4);
  }

  lemma NegativeRead(c: Char)
    requires c == -1 || c == '/' as int
    ensures Decoded([c, 'A' as int, Pad(), Pad()], None, 1, false, Variant(false, true)) == Result(0, 1, 4, [0xFC])
  {
    var s: seq<Char> := [c, 'A' as int, Pad(), Pad()];
    hide Read, SkipPads;
    NegativeDigits(s);
    NegativePads(s);
    assert BytesOf([63, 0]) == [0xFC];
  }

  // ------------------------------------------------------ what is reported

  /** The end pointer: whether it is asked for changes the verdict only; without it the whole text must be consumed. A
      failure reports no bytes. */
  lemma WantEndIs(s: seq<Char>, ignore: Option<seq<Char>>, cap: nat, v: Variant)
    ensures var r, q := Decoded(s, ignore, cap, true, v), Decoded(s, ignore, cap, false, v);
            && (r.ret == 0 || r.ret == -1) && (r.ret == -1 ==> r.bytes == []) && r.binLen == |r.bytes|
            && r.end <= |s| && q.end == r.end && q.bytes == r.bytes && q.binLen == r.binLen
            && q.ret == if r.end == |s| then r.ret else -1
  {
    hide Read, SkipPads, SkipIgnored, BytesOf, Leftover, LeftBits;
    ReadWithin(s, ignore, v.urlsafe, cap, 0, []);
    var b := Read(s, ignore, v.urlsafe, cap, 0, []);
    PadsWithin(s, ignore, b.pos, LeftBits(|b.ds|) / 2);
  }

  /** A buffer that is too small: the end is the letter that would have completed the next byte. */
  lemma FullStops(ds: seq<Digit>, rest: seq<Char>, ignore: Option<seq<Char>>, cap: nat, n: nat, v: Variant)
    requires n < |ds| && ByteCount(n) <= cap < ByteCount(n + 1)
    ensures Decoded(LettersOf(ds, v.urlsafe) + rest, ignore, cap, true, v) == Result(-1, 0, n, [])
  {
    hide DigitOf, Alphabet, ByteCount, LeftBits, Leftover, BytesOf;
    var s := LettersOf(ds, v.urlsafe) + rest;
    assert s[..n] == LettersOf(ds[..n], v.urlsafe) && s[n] == Alphabet(ds[n], v.urlsafe);
    NoDigits();
    ReadLetters(s, ignore, v.urlsafe, cap, 0, ds[..n]);
    AlphabetLaws(ds[n], v.urlsafe);
    CountGrows(n, n + 1);
    assert ds[..n][..0] == [];
    assert Read(s, ignore, v.urlsafe, cap, n, ds[..n]) == Body(ds[..n] + [ds[n]], n, true);
  }

  lemma NoDigits()
    ensures ByteCount(0) == 0
  {
  }

  // ------------------------------------------------- ignored characters

  /** Characters that reading passes over. */
  predicate Dropped(c: Char, ignore: seq<Char>, urlsafe: bool) {
    DigitOf(c, urlsafe) == 0xFF && Ignored(Some(ignore), c)
  }

  /** The text without them. */
  function Cleaned(s: seq<Char>, ignore: seq<Char>, urlsafe: bool): (t: seq<Char>)
    ensures |t| <= |s|
  {
    if s == [] then []
    else
      var c := s[|s| - 1];
      Cleaned(s[..|s| - 1], ignore, urlsafe) + if Dropped(c, ignore, urlsafe) then [] else [c]
  }

  function Place(s: seq<Char>, ignore: seq<Char>, urlsafe: bool, pos: nat): nat
    requires pos <= |s|
  {
    |Cleaned(s[..pos], ignore, urlsafe)|
  }

  lemma {:induction false} CleanedPrefix(s: seq<Char>, ignore: seq<Char>, urlsafe: bool, pos: nat)
    requires pos <= |s|
    ensures Cleaned(s[..pos], ignore, urlsafe) <= Cleaned(s, ignore, urlsafe)
    decreases |s|
  {
    if pos == |s| {
      assert s[..pos] == s;
    } else {
      var front := s[..|s| - 1];
      assert front[..pos] == s[..pos];
      CleanedPrefix(front, ignore, urlsafe, pos);
    }
  }

  /** One character further: nothing more in the cleaned text, or that character. */
  lemma CleanedAt(s: seq<Char>, ignore: seq<Char>, urlsafe: bool, pos: nat)
    requires pos < |s|
    ensures var t, k := Cleaned(s, ignore, urlsafe), Place(s, ignore, urlsafe, pos);
            && Place(s, ignore, urlsafe, pos + 1) <= |t|
            && if Dropped(s[pos], ignore, urlsafe) then Place(s, ignore, urlsafe, pos + 1) == k
               else Place(s, ignore, urlsafe, pos + 1) == k + 1 && t[k] == s[pos]
  {
    var front := s[..pos + 1];
    assert front[..|front| - 1] == s[..pos] && front[|front| - 1] == s[pos];
    CleanedPrefix(s, ignore, urlsafe, pos + 1);
  }

  lemma PlaceBound(s: seq<Char>, ignore: seq<Char>, urlsafe: bool, pos: nat)
    requires pos <= |s|
    ensures Place(s, ignore, urlsafe, pos) <= |Cleaned(s, ignore, urlsafe)|
    ensures Place(s, ignore, urlsafe, |s|) == |Cleaned(s, ignore, urlsafe)|
  {
    CleanedPrefix(s, ignore, urlsafe, pos);
    assert s[..|s|] == s;
  }

  lemma {:induction false} ReadCleaned(s: seq<Char>, ignore: seq<Char>, urlsafe: bool, cap: nat, pos: nat,
                                       ds: seq<Digit>)
    requires pos <= |s|
    ensures Place(s, ignore, urlsafe, pos) <= |Cleaned(s, ignore, urlsafe)|
    ensures var t := Cleaned(s, ignore, urlsafe);
            var b := Read(s, Some(ignore), urlsafe, cap, pos, ds);
            var q := Read(t, None, urlsafe, cap, Place(s, ignore, urlsafe, pos), ds);
            && b.pos <= |s| && q.ds == b.ds && q.overflow == b.overflow
            && (!b.overflow ==> q.pos == Place(s, ignore, urlsafe, b.pos))
    decreases |s| - pos
  {
    hide DigitOf, Cleaned, Place, ByteCount;
    PlaceBound(s, ignore, urlsafe, pos);
    NulIsNoDigit(urlsafe);
    if pos < |s| {
      CleanedAt(s, ignore, urlsafe, pos);
      var d := DigitOf(s[pos], urlsafe);
      if d == 0xFF {
        if Ignored(Some(ignore), s[pos]) {
          ReadCleaned(s, ignore, urlsafe, cap, pos + 1, ds);
        }
      } else if !(ByteCount(|ds + [d]|) > ByteCount(|ds|) && ByteCount(|ds|) >= cap) {
        ReadCleaned(s, ignore, urlsafe, cap, pos + 1, ds + [d]);
      }
    }
  }

  /** No letter of the alphabet is to be ignored. */
  ghost predicate NoLetters(ignore: seq<Char>, urlsafe: bool) {
    forall c :: c in ignore ==> DigitOf(c, urlsafe) == 0xFF
  }

  lemma {:induction false} SkipPadsCleaned(s: seq<Char>, ignore: seq<Char>, urlsafe: bool, pos: nat, k: nat)
    requires pos <= |s| && NoLetters(ignore, urlsafe) && !Ignored(Some(ignore), Pad())
    ensures Place(s, ignore, urlsafe, pos) <= |Cleaned(s, ignore, urlsafe)|
    ensures var (ok, p) := SkipPads(s, Some(ignore), pos, k);
            var (ok', p') := SkipPads(Cleaned(s, ignore, urlsafe), None, Place(s, ignore, urlsafe, pos), k);
            p <= |s| && ok' == ok && (ok ==> p' == Place(s, ignore, urlsafe, p))
    decreases |s| - pos
  {
    hide Cleaned;
    PlaceBound(s, ignore, urlsafe, pos);
    if k > 0 && pos < |s| {
      CleanedAt(s, ignore, urlsafe, pos);
      if s[pos] == Pad() {
        SkipPadsCleaned(s, ignore, urlsafe, pos + 1, k - 1);
      } else if Ignored(Some(ignore), s[pos]) {
        NulIsNoDigit(urlsafe);
        SkipPadsCleaned(s, ignore, urlsafe, pos + 1, k);
      }
    }
  }

  lemma NulIsNoDigit(urlsafe: bool)
    ensures DigitOf(Nul(), urlsafe) == 0xFF
  {
  }

  lemma {:induction false} SkipIgnoredCleaned(s: seq<Char>, ignore: seq<Char>, urlsafe: bool, pos: nat)
    requires pos <= |s| && NoLetters(ignore, urlsafe)
    ensures var p := SkipIgnored(s, Some(ignore), pos);
            && Place(s, ignore, urlsafe, p) == Place(s, ignore, urlsafe, pos)
            && (p == |s| <==> Place(s, ignore, urlsafe, pos) == |Cleaned(s, ignore, urlsafe)|)
    decreases |s| - pos
  {
    hide Cleaned;
    PlaceBound(s, ignore, urlsafe, pos);
    if pos < |s| {
      CleanedAt(s, ignore, urlsafe, pos);
      NulIsNoDigit(urlsafe);
      if Ignored(Some(ignore), s[pos]) {
        SkipIgnoredCleaned(s, ignore, urlsafe, pos + 1);
      }
    }
  }

  /** Decoding with characters to ignore, letters and `=` not among them, is decoding the text without these characters:
      the same verdict and the same bytes. */
  lemma IgnoredCharacters(s: seq<Char>, ignore: seq<Char>, cap: nat, v: Variant)
    requires NoLetters(ignore, v.urlsafe) && !Ignored(Some(ignore), Pad())
    ensures var r := Decoded(s, Some(ignore), cap, false, v);
            var q := Decoded(Cleaned(s, ignore, v.urlsafe), None, cap, false, v);
            r.ret == q.ret && (r.ret == 0 ==> r.bytes == q.bytes)
  {
    hide Cleaned, Read, SkipPads, SkipIgnored, Ignored, BytesOf, Leftover, LeftBits, NoLetters;
    var t := Cleaned(s, ignore, v.urlsafe);
    PlaceBound(s, ignore, v.urlsafe, 0);
    NothingPlaced(s, ignore, v.urlsafe);
    ReadCleaned(s, ignore, v.urlsafe, cap, 0, []);
    var b := Read(s, Some(ignore), v.urlsafe, cap, 0, []);
    var k := LeftBits(|b.ds|) / 2;
    if !b.overflow {
      SkipPadsCleaned(s, ignore, v.urlsafe, b.pos, k);
      var p := if v.padded then SkipPads(s, Some(ignore), b.pos, k).1 else b.pos;
      SkipIgnoredCleaned(s, ignore, v.urlsafe, p);
      PlaceBound(s, ignore, v.urlsafe, p);
      NothingIgnored(t, Place(s, ignore, v.urlsafe, p));
    }
  }

  /** "Zg" with a space in it, read with spaces ignored: the byte "f". */
  lemma SpaceIgnored()
    ensures var s := ['Z' as int, ' ' as int, 'g' as int];
            Decoded(s, Some([' ' as int]), 1, false, Variant(false, false)).ret == 0
            && Decoded(s, Some([' ' as int]), 1, false, Variant(false, false)).bytes == [0x66]
  {
    var ignore: seq<Char> := [' ' as int];
    var z: seq<Char>, zs: seq<Char>, s: seq<Char> := ['Z' as int], ['Z' as int, ' ' as int],
                                                     ['Z' as int, ' ' as int, 'g' as int];
    assert z[..0] == [] && zs[..1] == z && s[..2] == zs;
    assert Cleaned(z, ignore, false) == z && Cleaned(zs, ignore, false) == z;
    assert Cleaned(s, ignore, false) == ['Z' as int, 'g' as int];
    IgnoredCharacters(s, ignore, 1, Variant(false, false));
    VectorF();
    hide Decoded, Encoded;
    var bin: seq<byte> := [0x66];
    Unpadded1();
    RoundTrip(bin, None, 1, false, Variant(false, false));
  }

  lemma Unpadded1()
    ensures Encoded([0x66], Variant(false, false)) == ['Z' as int, 'g' as int]
  {
    var bin: seq<byte> := [0x66];
    assert Sextet(bin, 0) == 25 && Sextet(bin, 1) == 32;
    assert DigitCount(1) == 2;
    hide Sextet, Encoded, DigitCount, PadCount;
    EncodedAt(bin, Variant(false, false));
  }

  lemma NothingPlaced(s: seq<Char>, ignore: seq<Char>, urlsafe: bool)
    ensures Place(s, ignore, urlsafe, 0) == 0
  {
    assert s[..0] == [];
  }

  lemma NothingIgnored(t: seq<Char>, p: nat)
    requires p <= |t|
    ensures SkipIgnored(t, None, p) == p
  {
  }
}
