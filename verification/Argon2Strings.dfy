/**
 The hash-string reader and printer of Argon2 as they run: cursors over the text and the
 remaining buffer.
 */
module Argon2Strings {
  import opened Machine
  import opened Bytes
  import opened Base64Chars
  import opened Base64
  import Base64Decode
  import Base64Laws
  import Decimal
  import opened Argon2Ctx
  import opened Argon2Encoding

  // -------------------------------------------------------------- reading

  /** `DECIMAL_U32`: an `unsigned long` of 32 or more bits, then the range check. */
  lemma NarrowNumber(s: seq<Char>, max: nat)
    requires max >= U32 - 1
    ensures var r := Decimal.ReadNumber(s, max);
            Decimal.ReadNumber(s, U32 - 1) == if r.Read? && r.value > U32 - 1 then Decimal.Bad else r
  {
  }

  method ReadField(str: seq<Char>, prefix: seq<Char>, ulongMax: nat) returns (r: Parsed<u32>)
    requires ulongMax >= U32 - 1
    ensures r == Field(str, prefix)
  {
    hide Decimal.ReadNumber;
    if !(|prefix| <= |str| && str[..|prefix|] == prefix) {
      return Fail(DecodingFail);
    }
    var rest := str[|prefix|..];
    NarrowNumber(rest, ulongMax);
    var n := Decimal.DecodeDecimal(rest, ulongMax);
    if n.Bad? || n.value > U32 - 1 {
      return Fail(DecodingFail);
    }
    Decimal.PrintRead(rest, U32 - 1);
    return Got(n.value, rest[n.len..]);
  }

  /** `CC("$")` and `BIN`. */
  method ReadBin(str: seq<Char>, buf: array<byte>) returns (r: Parsed<seq<byte>>)
    modifies buf
    ensures r == BinField(str, buf.Length)
    ensures r.Got? ==> |r.value| <= buf.Length && buf[..|r.value|] == r.value
  {
    hide Base64Decode.Decoded;
    if !(|Ascii("$")| <= |str| && str[..|Ascii("$")|] == Ascii("$")) {
      return Fail(DecodingFail);
    }
    var rest := str[|Ascii("$")|..];
    VariantIsUnpadded();
    var aborted, ret, binLen, end := Base64Decode.Base642Bin(buf, rest, None, true, VARIANT);
    if ret != 0 || binLen > U32 - 1 {
      return Fail(DecodingFail);
    }
    EndWithin(rest, buf.Length);
    return Got(buf[..binLen], rest[end..]);
  }

  lemma EndWithin(s: seq<Char>, cap: nat)
    ensures var r := Base64Decode.Decoded(s, None, cap, true, Unpadded());
            r.end <= |s| && r.binLen == |r.bytes|
  {
    hide Base64Decode.Read, Base64Decode.BytesOf;
    Base64Decode.ReadWithin(s, None, false, cap, 0, []);
  }

  /** The context while the costs are read: each is stored as soon as it is known, and both lengths start at zero. */
  function CostContext(x: Context, s: seq<Char>, typ: int): Context {
    var y := x.(salt := x.salt.(len := 0), out := x.out.(len := 0));
    if !Known(typ) || Strip(s, Prefix(typ)).Fail? then y else
    var v := Field(Strip(s, Prefix(typ)).rest, Ascii("$v="));
    if v.Fail? || v.value != VERSION then y else
    var m := Field(v.rest, Ascii("$m="));
    if m.Fail? then y else
    var t := Field(m.rest, Ascii(",t="));
    if t.Fail? then y.(mCost := m.value) else
    var l := Field(t.rest, Ascii(",p="));
    if l.Fail? then y.(mCost := m.value, tCost := t.value)
    else y.(mCost := m.value, tCost := t.value, lanes := l.value, threads := l.value)
  }

  /** The context at the end, whatever the result code. */
  function FinalContext(x: Context, s: seq<Char>, typ: int): Context {
    var y, c := CostContext(x, s, typ), ParseCosts(s, typ);
    if c.Fail? then y else
    var a := BinField(c.rest, x.salt.len);
    if a.Fail? then y else
    BinLength(c.rest, x.salt.len);
    var z := y.(salt := y.salt.(len := |a.value|));
    var b := BinField(a.rest, x.out.len);
    if b.Fail? then z else
    BinLength(a.rest, x.out.len);
    z.(out := z.out.(len := |b.value|))
  }

  lemma BinLength(s: seq<Char>, cap: u32)
    ensures var r := BinField(s, cap); r.Got? ==> |r.value| <= cap
  {
    hide Base64Decode.Decoded;
    if Strip(s, Ascii("$")).Got? {
      Base64Decode.DecodedFits(Strip(s, Ascii("$")).rest, None, cap, true, Unpadded());
    }
  }

  /** The part of `argon2_decode_string` before the salt. */
  method ReadCosts(x: Context, str: seq<Char>, typ: int, ulongMax: nat) returns (r: Parsed<Costs>, y: Context)
    requires ulongMax >= U32 - 1
    ensures r == ParseCosts(str, typ) && y == CostContext(x, str, typ)
  {
    hide Field, Prefix, Ascii;
    y := x.(salt := x.salt.(len := 0), out := x.out.(len := 0));
    if typ != ARGON2_ID && typ != ARGON2_I {
      return Fail(IncorrectType), y;
    }
    var prefix := Prefix(typ);
    if !(|prefix| <= |str| && str[..|prefix|] == prefix) {
      return Fail(DecodingFail), y;
    }
    var v := ReadField(str[|prefix|..], Ascii("$v="), ulongMax);
    if v.Fail? {
      return Fail(v.code), y;
    }
    if v.value != VERSION {
      return Fail(IncorrectType), y;
    }
    var m := ReadField(v.rest, Ascii("$m="), ulongMax);
    if m.Fail? {
      return Fail(m.code), y;
    }
    y := y.(mCost := m.value);
    var t := ReadField(m.rest, Ascii(",t="), ulongMax);
    if t.Fail? {
      return Fail(t.code), y;
    }
    y := y.(tCost := t.value);
    var l := ReadField(t.rest, Ascii(",p="), ulongMax);
    if l.Fail? {
      return Fail(l.code), y;
    }
    y := y.(lanes := l.value, threads := l.value);
    r := Got(Costs(m.value, t.value, l.value), l.rest);
  }

  /** The context and the buffers hold a hash. */
  ghost predicate Loaded(x: Context, y: Context, h: Hash, salt: seq<byte>, out: seq<byte>) {
    && |h.salt| <= |salt| < U32 && |h.out| <= |out| < U32
    && y == Filled(x, h) && salt[..|h.salt|] == h.salt && out[..|h.out|] == h.out
  }

  function CodeOf(r: Parsed<Hash>): Code { if r.Got? then Ok else r.code }

  /** No salt can be read, so the output is never looked at. */
  predicate SaltFails(x: Context, s: seq<Char>, typ: int) {
    ParseCosts(s, typ).Fail? || BinField(ParseCosts(s, typ).rest, x.salt.len).Fail?
  }

  lemma ContextRead(x: Context, s: seq<Char>, typ: int)
    ensures var y, c := CostContext(x, s, typ), ParseCosts(s, typ);
            && y.salt == x.salt.(len := 0) && y.out == x.out.(len := 0)
            && y == x.(mCost := y.mCost, tCost := y.tCost, lanes := y.lanes, threads := y.threads,
                       salt := y.salt, out := y.out)
            && (c.Got? ==> y.mCost == c.value.mCost && y.tCost == c.value.tCost && y.lanes == c.value.lanes
                           && y.threads == c.value.lanes)
  {
    hide Field, Prefix, Ascii;
  }

  /** A rejected string never leaves a length above the capacity of its buffer, and leaves an output length only when
      the parameters were refused or text was left over. */
  lemma RejectedContext(x: Context, s: seq<Char>, typ: int)
    ensures var y := FinalContext(x, s, typ); y.salt.len <= x.salt.len && y.out.len <= x.out.len
    ensures var d := Decoded(x, s, typ); d.Got? ==> FinalContext(x, s, typ) == Filled(x, d.value)
    ensures Decoded(x, s, typ).Fail? && FinalContext(x, s, typ).out.len > 0 ==>
            ParseCosts(s, typ).Got? && ParseBins(ParseCosts(s, typ).rest, x.salt.len, x.out.len).Got?
  {
    hide ParseCosts, BinField, ValidateInputs, CostContext;
    ContextRead(x, s, typ);
    var c := ParseCosts(s, typ);
    if c.Got? {
      BinLength(c.rest, x.salt.len);
      BinLengths(c.rest, x.salt.len, x.out.len);
      var a := BinField(c.rest, x.salt.len);
      if a.Got? {
        BinLength(a.rest, x.out.len);
      }
    }
  }

  /** `argon2_decode_string`: the result code, and the context whatever the code; buffers not reached are untouched. */
  method DecodeString(x: Context, saltBuf: array<byte>, outBuf: array<byte>, str: seq<Char>, typ: int, ulongMax: nat)
    returns (code: Code, y: Context)
    requires saltBuf.Length == x.salt.len && outBuf.Length == x.out.len && saltBuf != outBuf
    requires ulongMax >= U32 - 1
    modifies saltBuf, outBuf
    ensures code == CodeOf(Decoded(x, str, typ)) && y == FinalContext(x, str, typ)
    ensures ParseCosts(str, typ).Fail? ==> saltBuf[..] == old(saltBuf[..])
    ensures SaltFails(x, str, typ) ==> outBuf[..] == old(outBuf[..])
    ensures code == Ok
        ==> Decoded(x, str, typ).Got? && Loaded(x, y, Decoded(x, str, typ).value, saltBuf[..], outBuf[..])
  {
    hide ParseCosts, BinField, ValidateInputs, CostContext;
    var c;
    c, y := ReadCosts(x, str, typ, ulongMax);
    ContextRead(x, str, typ);
    if c.Fail? {
      return c.code, y;
    }
    var a := ReadBin(c.rest, saltBuf);
    if a.Fail? {
      return a.code, y;
    }
    y := y.(salt := y.salt.(len := |a.value|));
    ghost var salted := saltBuf[..];
    var b := ReadBin(a.rest, outBuf);
    if b.Fail? {
      return b.code, y;
    }
    assert saltBuf[..] == salted;
    y := y.(out := y.out.(len := |b.value|));
    code := ValidateInputs(y);
    if code == Ok && b.rest != [] {
      code := DecodingFail;
    }
  }

  // ------------------------------------------------------------- printing

  /** What printing reports: an error code, an abort inside the Base64 encoder, or success. */
  datatype Printed = Error(code: Code) | Aborted | Done

  /** `SS`: the text and its terminator, if they fit. */
  method AppendText(dst: array<Char>, pos: nat, text: seq<Char>) returns (ok: bool)
    requires pos <= dst.Length
    modifies dst
    ensures ok <==> |text| < dst.Length - pos
    ensures !ok ==> dst[..] == old(dst[..])
    ensures ok ==> dst[..pos + |text|] == old(dst[..pos]) + text && dst[pos + |text|] == Nul()
    ensures ok ==> dst[pos + |text| + 1..] == old(dst[pos + |text| + 1..])
  {
    if |text| >= dst.Length - pos {
      return false;
    }
    for i := 0 to |text|
      invariant forall k :: 0 <= k < dst.Length ==> dst[k] == if pos <= k < pos + i then text[k - pos] else old(dst[k])
    {
      dst[pos + i] := text[i];
    }
    dst[pos + |text|] := Nul();
    return true;
  }

  /** The pieces of the text before the salt, one after the other. */
  method AppendCosts(dst: array<Char>, start: nat, x: Context) returns (ok: bool, pos: nat)
    requires start <= dst.Length
    modifies dst
    ensures ok <==> |Tail(x)| < dst.Length - start
    ensures ok ==> pos == start + |Tail(x)| && dst[..pos] == old(dst[..start]) + Tail(x)
  {
    hide Decimal.Dec, Ascii;
    var texts := Pieces(x);
    ghost var was := dst[..start];
    pos := start;
    var i := 0;
    assert was + [] == was;
    while i < |texts|
      invariant i <= |texts| && pos == start + |Joined(texts[..i])| && pos <= dst.Length
      invariant i == 0 || pos < dst.Length
      invariant dst[..pos] == was + Joined(texts[..i])
    {
      JoinedSnoc(texts, i);
      ok := AppendText(dst, pos, texts[i]);
      if !ok {
        JoinedGrows(texts, i + 1);
        return;
      }
      assert was + Joined(texts[..i]) + texts[i] == was + (Joined(texts[..i]) + texts[i]);
      pos := pos + |texts[i]|;
      i := i + 1;
    }
    assert texts[..|texts|] == texts;
    ok := true;
  }

  function Pieces(x: Context): seq<seq<Char>> {
    [Decimal.Dec(VERSION), Ascii("$m="), Decimal.Dec(x.mCost), Ascii(",t="), Decimal.Dec(x.tCost), Ascii(",p="),
     Decimal.Dec(x.lanes), Ascii("$")]
  }

  function Joined(ts: seq<seq<Char>>): seq<Char> { if ts == [] then [] else Joined(ts[..|ts| - 1]) + ts[|ts| - 1] }

  function Tail(x: Context): seq<Char> { Joined(Pieces(x)) }

  lemma JoinedSnoc(ts: seq<seq<Char>>, i: nat)
    requires i < |ts|
    ensures Joined(ts[..i + 1]) == Joined(ts[..i]) + ts[i]
  {
    assert ts[..i + 1][..i] == ts[..i];
  }

  lemma {:induction false} JoinedGrows(ts: seq<seq<Char>>, i: nat)
    requires i <= |ts|
    ensures |Joined(ts[..i])| <= |Joined(ts)|
    decreases |ts| - i
  {
    if i == |ts| {
      assert ts[..i] == ts;
    } else {
      JoinedSnoc(ts, i);
      JoinedGrows(ts, i + 1);
    }
  }

  function Head(typ: int): seq<Char> { Prefix(typ) + Ascii("$v=") }

  /** The outcome by the space each stage needs. */
  function Outcome(x: Context, h: Hash, typ: int, dstLen: nat): Printed {
    var costs := |Head(typ)| + |Tail(x)|;
    var salted := costs + |Encoded(h.salt, Unpadded())|;
    if !Known(typ) || |Head(typ)| >= dstLen then Error(EncodingFail)
    else if ValidateInputs(x) != Ok then Error(ValidateInputs(x))
    else if costs >= dstLen then Error(EncodingFail)
    else if salted >= dstLen then Aborted
    else if salted + 1 >= dstLen then Error(EncodingFail)
    else if salted + 1 + |Encoded(h.out, Unpadded())| >= dstLen then Aborted
    else Done
  }

  /** The pieces make up the text of the hash. */
  lemma PiecesMakeText(x: Context, h: Hash, typ: int)
    requires h.costs == Costs(x.mCost, x.tCost, x.lanes)
    ensures HashString(h, typ) ==
            Head(typ) + Tail(x) + Encoded(h.salt, Unpadded()) + Ascii("$") + Encoded(h.out, Unpadded())
  {
    hide Decimal.Dec, Ascii, Encoded, Prefix;
    var v, m, t, l := Decimal.Dec(VERSION), Decimal.Dec(x.mCost), Decimal.Dec(x.tCost), Decimal.Dec(x.lanes);
    var d := Ascii("$");
    TailParts(x);
    Nest8(Prefix(typ), Ascii("$v="), v, Ascii("$m="), m, Ascii(",t="), t, Ascii(",p="), l, BinString(h.salt, h.out));
    var e, o := Encoded(h.salt, Unpadded()), Encoded(h.out, Unpadded());
    var p := Head(typ);
    assert Head(typ) + Tail(x) + e + d + o
        == p + (v + (Ascii("$m=") + (m + (Ascii(",t=") + (t + (Ascii(",p=") + (l + (d + (e + (d + o)))))))))) by {
      FlatText(p, v, Ascii("$m="), m, Ascii(",t="), t, Ascii(",p="), l, d, e, o);
    }
    Shift(Prefix(typ), Ascii("$v="),
          v + (Ascii("$m=") + (m + (Ascii(",t=") + (t + (Ascii(",p=") + (l + (d + (e + (d + o))))))))));
  }

  /** A buffer too small for the text is reported when it ends before the salt or right before the separator behind it;
      everywhere else the Base64 encoder aborts. */
  lemma TooSmall(x: Context, h: Hash, typ: int, dstLen: nat)
    requires Known(typ) && ValidateInputs(x) == Ok && h.costs == Costs(x.mCost, x.tCost, x.lanes)
    requires dstLen <= |HashString(h, typ)|
    ensures var salted := |Head(typ)| + |Tail(x)| + |Encoded(h.salt, Unpadded())|;
            Outcome(x, h, typ, dstLen) ==
            if dstLen <= |Head(typ)| + |Tail(x)| || dstLen == salted + 1 then Error(EncodingFail) else Aborted
  {
    hide Tail, Head, Encoded, HashString, ValidateInputs;
    PiecesMakeText(x, h, typ);
  }

  /** The smallest parameters with a salt of 8 and an output of 16 bytes. */
  function Smallest(): Context {
    Context(Buffer(false, 16), Buffer(true, 0), Buffer(false, 8), Buffer(true, 0), Buffer(true, 0), 1, 8, 1, 1)
  }

  function SmallestHash(): Hash { Hash(Costs(8, 1, 1), Zeros(8), Zeros(16)) }

  /** Their text has 60 characters: 25 bytes are reported as too small, 30 bytes, which end inside the salt, abort. */
  lemma EndsInSalt()
    ensures |HashString(SmallestHash(), ARGON2_I)| == 60
    ensures Outcome(Smallest(), SmallestHash(), ARGON2_I, 25) == Error(EncodingFail)
    ensures Outcome(Smallest(), SmallestHash(), ARGON2_I, 30) == Aborted
  {
    hide HashString, Tail, Outcome;
    var x, h := Smallest(), SmallestHash();
    SmallestTail();
    PiecesMakeText(x, h, ARGON2_I);
    assert |Head(ARGON2_I)| == 11;
    assert |Encoded(h.salt, Unpadded())| == 11 && |Encoded(h.out, Unpadded())| == 22;
    TooSmall(x, h, ARGON2_I, 25);
    TooSmall(x, h, ARGON2_I, 30);
  }

  lemma SmallestTail()
    ensures |Tail(Smallest())| == 15
  {
    hide Tail, Pieces;
    TailParts(Smallest());
    assert |Decimal.Dec(1)| == 1 && |Decimal.Dec(8)| == 1 && |Decimal.Dec(VERSION)| == 2;
  }

  lemma JoinedAll(ts: seq<seq<Char>>)
    ensures Joined(ts[..|ts|]) == Joined(ts) && Joined(ts[..0]) == []
  {
    assert ts[..|ts|] == ts;
  }

  lemma JoinedFirst(t: seq<Char>)
    ensures [] + t == t
  {
  }

  lemma TailParts(x: Context)
    ensures Tail(x) == Decimal.Dec(VERSION) + Ascii("$m=") + Decimal.Dec(x.mCost) + Ascii(",t=") + Decimal.Dec(x.tCost)
                       + Ascii(",p=") + Decimal.Dec(x.lanes) + Ascii("$")
  {
    hide Decimal.Dec, Ascii, Joined;
    var ts := Pieces(x);
    JoinedSnoc(ts, 0);
    JoinedSnoc(ts, 1);
    JoinedSnoc(ts, 2);
    JoinedSnoc(ts, 3);
    JoinedSnoc(ts, 4);
    JoinedSnoc(ts, 5);
    JoinedSnoc(ts, 6);
    JoinedSnoc(ts, 7);
    JoinedAll(ts);
    JoinedFirst(ts[0]);
  }

  lemma FlatText(p: seq<Char>, a: seq<Char>, b: seq<Char>, c: seq<Char>, d: seq<Char>, e: seq<Char>, f: seq<Char>,
      g: seq<Char>, h: seq<Char>, i: seq<Char>, j: seq<Char>)
    ensures p + (a + b + c + d + e + f + g + h) + i + h + j
        == p + (a + (b + (c + (d + (e + (f + (g + (h + (i + (h + j))))))))))
  {
    var z := i + (h + j);
    assert p + (a + b + c + d + e + f + g + h) + i + h + j == p + ((a + b + c + d + e + f + g + h) + z);
    Shift(a + b + c + d + e + f + g, h, z);
    Shift(a + b + c + d + e + f, g, h + z);
    Shift(a + b + c + d + e, f, g + (h + z));
    Shift(a + b + c + d, e, f + (g + (h + z)));
    Shift(a + b + c, d, e + (f + (g + (h + z))));
    Shift(a + b, c, d + (e + (f + (g + (h + z)))));
    Shift(a, b, c + (d + (e + (f + (g + (h + z))))));
  }

  /** `argon2_encode_string`: on success the buffer holds the text and terminators. */
  method EncodeString(dst: array<Char>, x: Context, h: Hash, typ: int) returns (r: Printed)
    requires h.costs == Costs(x.mCost, x.tCost, x.lanes) && |h.salt| == x.salt.len && |h.out| == x.out.len
    modifies dst
    ensures r == Outcome(x, h, typ, dst.Length)
    ensures r == Done ==>
        |HashString(h, typ)| < dst.Length && dst[..] == HashString(h, typ) + Nuls(dst.Length - |HashString(h, typ)|)
  {
    hide *;
    OutcomeCases(x, h, typ, dst.Length);
    PiecesMakeText(x, h, typ);
    VariantIsUnpadded();
    if typ != ARGON2_ID && typ != ARGON2_I {
      return Error(EncodingFail);
    }
    var head := Head(typ);
    assert dst[..0] + head == head;
    var ok := AppendText(dst, 0, head);
    if !ok {
      return Error(EncodingFail);
    }
    var code := ValidateInputs(x);
    if code != Ok {
      return Error(code);
    }
    var pos;
    ok, pos := AppendCosts(dst, |head|, x);
    if !ok {
      return Error(EncodingFail);
    }
    var aborted := Bin2Base64(dst, pos, h.salt, VARIANT);
    LengthsAgree(h.salt, Unpadded());
    if aborted {
      return Aborted;
    }
    ghost var salted := Head(typ) + Tail(x) + Encoded(h.salt, Unpadded());
    pos := pos + EncodedLength(|h.salt|, Unpadded());
    assert dst[..pos] == salted;
    ok := AppendText(dst, pos, Ascii("$"));
    if !ok {
      return Error(EncodingFail);
    }
    pos := pos + 1;
    aborted := Bin2Base64(dst, pos, h.out, VARIANT);
    LengthsAgree(h.out, Unpadded());
    if aborted {
      return Aborted;
    }
    r := Done;
  }

  lemma OutcomeCases(x: Context, h: Hash, typ: int, dstLen: nat)
    ensures var costs := |Head(typ)| + |Tail(x)|;
            var salted := costs + |Encoded(h.salt, Unpadded())|;
            Outcome(x, h, typ, dstLen) ==
            if (typ != ARGON2_ID && typ != ARGON2_I) || |Head(typ)| >= dstLen then Error(EncodingFail)
            else if ValidateInputs(x) != Ok then Error(ValidateInputs(x))
            else if costs >= dstLen then Error(EncodingFail)
            else if salted >= dstLen then Aborted
            else if salted + 1 >= dstLen then Error(EncodingFail)
            else if salted + 1 + |Encoded(h.out, Unpadded())| >= dstLen then Aborted
            else Done
  {
    hide ValidateInputs, Encoded, Head, Tail;
  }

  // ------------------------------------------------------ print, then read

  predicate Unbroken(s: seq<Char>) { forall i :: 0 <= i < |s| ==> s[i] != Nul() }

  lemma EncodedUnbroken(bin: seq<byte>)
    ensures Unbroken(Encoded(bin, Unpadded()))
  {
    var s := Encoded(bin, Unpadded());
    hide Alphabet, Sextet;
    forall i | 0 <= i < |s| ensures s[i] != Nul() {
      Base64Laws.AlphabetLaws(Sextet(bin, i), false);
    }
  }

  lemma TextUnbroken(h: Hash, typ: int)
    ensures Unbroken(HashString(h, typ))
  {
    EncodedUnbroken(h.salt);
    EncodedUnbroken(h.out);
    CostsUnbroken(h.costs, typ);
    hide CostString, Encoded;
    var t := Ascii("$");
    assert t[0] == '$' as int;
  }

  lemma CostsUnbroken(c: Costs, typ: int)
    ensures Unbroken(CostString(c, typ))
  {
    hide Decimal.Dec;
    assert forall x: nat :: Unbroken(Decimal.Dec(x));
    AsciiUnbroken();
  }

  lemma AsciiUnbroken()
    ensures Unbroken(Ascii("$argon2id")) && Unbroken(Ascii("$argon2i")) && Unbroken(Ascii("$v="))
    ensures Unbroken(Ascii("$m=")) && Unbroken(Ascii(",t=")) && Unbroken(Ascii(",p=")) && Unbroken(Ascii("$"))
  {
  }

  lemma TextAt(buf: array<Char>, text: seq<Char>, n: nat)
    requires n < |text| < buf.Length && buf[..|text|] == text && Unbroken(text)
    ensures buf[n] != Nul()
  {
    assert text[n] == buf[n];
  }

  /** The text in a buffer, up to its terminator. */
  method TextIn(buf: array<Char>, ghost text: seq<Char>) returns (s: seq<Char>)
    requires |text| < buf.Length && buf[..|text|] == text && buf[|text|] == Nul() && Unbroken(text)
    ensures s == text
  {
    if text != [] {
      TextAt(buf, text, 0);
    }
    var n := 0;
    while buf[n] != Nul()
      invariant n <= |text| && (n < |text| ==> buf[n] != Nul())
      decreases |text| - n
    {
      n := n + 1;
      if n < |text| {
        TextAt(buf, text, n);
      }
    }
    s := buf[..n];
  }

  /** What `argon2_encode_string` writes, `argon2_decode_string` reads: the same costs, salt and output, whenever the
      buffers have room and the context they are read into is valid with them. */
  method EncodeThenDecode(dst: array<Char>, x: Context, h: Hash, typ: int,
                          y: Context, saltBuf: array<byte>, outBuf: array<byte>, ulongMax: nat)
    returns (r: Printed, code: Code, z: Context)
    requires h.costs == Costs(x.mCost, x.tCost, x.lanes) && |h.salt| == x.salt.len && |h.out| == x.out.len
    requires |h.salt| <= saltBuf.Length == y.salt.len && |h.out| <= outBuf.Length == y.out.len && saltBuf != outBuf
    requires ulongMax >= U32 - 1
    modifies dst, saltBuf, outBuf
    ensures r == Outcome(x, h, typ, dst.Length)
    ensures r == Done ==> (code == Ok <==> ValidateInputs(Filled(y, h)) == Ok)
    ensures r == Done && code == Ok ==> Loaded(y, z, h, saltBuf[..], outBuf[..])
  {
    hide *;
    r := EncodeString(dst, x, h, typ);
    code, z := Ok, y;
    if r == Done {
      DoneIsKnown(x, h, typ, dst.Length);
      TextUnbroken(h, typ);
      ghost var text := HashString(h, typ);
      TextAndNuls(dst, text);
      var s := TextIn(dst, text);
      DecodedText(y, h, typ);
      code, z := DecodeString(y, saltBuf, outBuf, s, typ, ulongMax);
      CodeCases(Decoded(y, text, typ));
    }
  }

  lemma CodeCases(r: Parsed<Hash>)
    ensures CodeOf(r) == if r.Got? then Ok else r.code
  {
  }

  lemma DoneIsKnown(x: Context, h: Hash, typ: int, dstLen: nat)
    requires Outcome(x, h, typ, dstLen) == Done
    ensures Known(typ)
  {
    OutcomeCases(x, h, typ, dstLen);
  }

  lemma TextAndNuls(dst: array<Char>, text: seq<Char>)
    requires |text| < dst.Length && dst[..] == text + Nuls(dst.Length - |text|)
    ensures dst[..|text|] == text && dst[|text|] == Nul()
  {
    assert dst[|text|] == dst[..][|text|];
  }

  /** The printed text decodes exactly when the context is valid with it. */
  lemma DecodedText(y: Context, h: Hash, typ: int)
    requires Known(typ) && |h.salt| <= y.salt.len && |h.out| <= y.out.len
    ensures var d := Decoded(y, HashString(h, typ), typ);
        if ValidateInputs(Filled(y, h)) == Ok then d == Got(h, []) else d == Fail(ValidateInputs(Filled(y, h)))
  {
    hide CostString, ParseCosts, ParseBins, ValidateInputs, BinString;
    StartsWithDollar(h);
    CostsRead(h.costs, typ, BinString(h.salt, h.out));
    BinsRead(h.salt, h.out, y.salt.len, y.out.len);
  }
}
