/**
 Argon2 hash strings: printing a checked context and reading a string back.
 */
module Argon2Encoding {
  import opened Machine
  import opened Bytes
  import opened Base64Chars
  import opened Base64
  import Base64Decode
  import Base64Laws
  import Decimal
  import opened Argon2Ctx

  const VERSION: u32 := 0x13

  /** Base64 without padding, the original alphabet. */
  const VARIANT: u32 := 3

  function Unpadded(): Variant { Variant(false, false) }

  lemma VariantIsUnpadded()
    ensures VariantOf(VARIANT) == Some(Unpadded())
  {
  }

  function Code7(c: char): Char { c as int % 128 }

  function Ascii(t: string): (s: seq<Char>)
    ensures |s| == |t| && forall i :: 0 <= i < |s| ==> s[i] == Code7(t[i])
  {
    seq(|t|, i requires 0 <= i < |t| => Code7(t[i]))
  }

  predicate Known(typ: int) { typ == ARGON2_ID || typ == ARGON2_I }

  function Prefix(typ: int): seq<Char> { if typ == ARGON2_ID then Ascii("$argon2id") else Ascii("$argon2i") }

  /** What a hash string carries. */
  datatype Costs = Costs(mCost: u32, tCost: u32, lanes: u32)
  datatype Hash = Hash(costs: Costs, salt: seq<byte>, out: seq<byte>)

  function CostString(c: Costs, typ: int): seq<Char> {
    Prefix(typ) + (Ascii("$v=") + (Decimal.Dec(VERSION) + (Ascii("$m=") + (Decimal.Dec(c.mCost)
    + (Ascii(",t=") + (Decimal.Dec(c.tCost) + (Ascii(",p=") + Decimal.Dec(c.lanes))))))))
  }

  function BinString(salt: seq<byte>, out: seq<byte>): seq<Char> {
    Ascii("$") + (Encoded(salt, Unpadded()) + (Ascii("$") + Encoded(out, Unpadded())))
  }

  /** The text of a hash. */
  function HashString(h: Hash, typ: int): seq<Char> { CostString(h.costs, typ) + BinString(h.salt, h.out) }

  /** The encoded form `$argon2<T>$v=<num>$m=<num>,t=<num>,p=<num>$<bin>$<bin>`, binary parts in unpadded Base64. */
  lemma HashStringIs(h: Hash, typ: int)
    ensures HashString(h, typ) ==
            Ascii(if typ == 2 then "$argon2id$v=19$m=" else "$argon2i$v=19$m=")
            + (Decimal.Dec(h.costs.mCost) + (Ascii(",t=") + (Decimal.Dec(h.costs.tCost) + (Ascii(",p=")
            + (Decimal.Dec(h.costs.lanes) + (Ascii("$") + (Encoded(h.salt, Variant(false, false)) + (Ascii("$")
            + Encoded(h.out, Variant(false, false))))))))))
    ensures Ascii("$,=v") == [0x24, 0x2c, 0x3d, 0x76]
  {
    var m, t, p := Decimal.Dec(h.costs.mCost), Decimal.Dec(h.costs.tCost), Decimal.Dec(h.costs.lanes);
    HeadIs(typ);
    hide Ascii, Encoded, Prefix, Decimal.Dec;
    Nest8(Prefix(typ), Ascii("$v="), Decimal.Dec(VERSION), Ascii("$m="), m, Ascii(",t="), t, Ascii(",p="), p,
          BinString(h.salt, h.out));
    var r := m + (Ascii(",t=") + (t + (Ascii(",p=") + (p + BinString(h.salt, h.out)))));
    Front(Prefix(typ), Ascii("$v="), Decimal.Dec(VERSION), Ascii("$m="), r);
  }

  lemma Concat(a: string, b: string)
    ensures Ascii(a) + Ascii(b) == Ascii(a + b)
  {
  }

  lemma VersionText()
    ensures Decimal.Dec(VERSION) == Ascii("19") && Ascii("$,=v") == [0x24, 0x2c, 0x3d, 0x76]
  {
    Decimal.DecIsDecimal(1, 9);
    Decimal.DecIsDecimal(0, 1);
  }

  lemma HeadIs(typ: int)
    ensures Prefix(typ) + (Ascii("$v=") + (Decimal.Dec(VERSION) + Ascii("$m="))) ==
            Ascii(if typ == 2 then "$argon2id$v=19$m=" else "$argon2i$v=19$m=")
    ensures Ascii("$,=v") == [0x24, 0x2c, 0x3d, 0x76]
  {
    VersionText();
    hide Ascii, Decimal.Dec;
    Concat("19", "$m=");
    Concat("$v=", "19" + "$m=");
    Concat("$argon2id", "$v=" + ("19" + "$m="));
    Concat("$argon2i", "$v=" + ("19" + "$m="));
    assert "$v=" + ("19" + "$m=") == "$v=19$m=";
    assert "$argon2id" + "$v=19$m=" == "$argon2id$v=19$m=";
    assert "$argon2i" + "$v=19$m=" == "$argon2i$v=19$m=";
  }

  lemma Front(a: seq<Char>, b: seq<Char>, c: seq<Char>, d: seq<Char>, r: seq<Char>)
    ensures a + (b + (c + (d + r))) == (a + (b + (c + d))) + r
  {
    Shift(c, d, r);
    Shift(b, c + d, r);
    Shift(a, b + (c + d), r);
  }

  // -------------------------------------------------------------- reading

  datatype Parsed<T> = Fail(code: Code) | Got(value: T, rest: seq<Char>)

  /** `CC`. */
  function Strip(s: seq<Char>, t: seq<Char>): (r: Parsed<()>)
    ensures r.Fail? ==> r.code == DecodingFail
  {
    if |t| <= |s| && s[..|t|] == t then Got((), s[|t|..]) else Fail(DecodingFail)
  }

  /** `DECIMAL_U32`. */
  function TakeU32(s: seq<Char>): (r: Parsed<u32>)
    ensures r.Fail? ==> r.code == DecodingFail
  {
    var r := Decimal.ReadNumber(s, U32 - 1);
    if r.Bad? then Fail(DecodingFail) else Got(r.value, s[r.len..])
  }

  /** `BIN` into a buffer of `cap` bytes. */
  function TakeBin(s: seq<Char>, cap: nat): (r: Parsed<seq<byte>>)
    ensures r.Fail? ==> r.code == DecodingFail
  {
    var r := Base64Decode.Decoded(s, None, cap, true, Unpadded());
    if r.ret != 0 || r.binLen > U32 - 1 || r.end > |s| then Fail(DecodingFail) else Got(r.bytes, s[r.end..])
  }

  /** A fixed text, then a number. */
  function Field(s: seq<Char>, t: seq<Char>): (r: Parsed<u32>)
    ensures r.Fail? ==> r.code == DecodingFail
  {
    var a := Strip(s, t);
    if a.Fail? then Fail(a.code) else TakeU32(a.rest)
  }

  function BinField(s: seq<Char>, cap: nat): (r: Parsed<seq<byte>>)
    ensures r.Fail? ==> r.code == DecodingFail
  {
    var a := Strip(s, Ascii("$"));
    if a.Fail? then Fail(a.code) else TakeBin(a.rest, cap)
  }

  function ParseCosts(s: seq<Char>, typ: int): (r: Parsed<Costs>)
    ensures r.Fail? ==> r.code == DecodingFail || r.code == IncorrectType
  {
    if !Known(typ) then Fail(IncorrectType) else
    var p := Strip(s, Prefix(typ));
    if p.Fail? then Fail(p.code) else
    var v := Field(p.rest, Ascii("$v="));
    if v.Fail? then Fail(v.code) else
    if v.value != VERSION then Fail(IncorrectType) else
    var m := Field(v.rest, Ascii("$m="));
    if m.Fail? then Fail(m.code) else
    var t := Field(m.rest, Ascii(",t="));
    if t.Fail? then Fail(t.code) else
    var l := Field(t.rest, Ascii(",p="));
    if l.Fail? then Fail(l.code) else
    Got(Costs(m.value, t.value, l.value), l.rest)
  }

  function ParseBins(s: seq<Char>, saltCap: nat, outCap: nat): (r: Parsed<(seq<byte>, seq<byte>)>)
    ensures r.Fail? ==> r.code == DecodingFail
  {
    var a := BinField(s, saltCap);
    if a.Fail? then Fail(a.code) else
    var b := BinField(a.rest, outCap);
    if b.Fail? then Fail(b.code) else
    Got((a.value, b.value), b.rest)
  }

  /** The context with the costs and lengths of a hash. */
  function Filled(x: Context, h: Hash): Context
    requires |h.salt| < U32 && |h.out| < U32
  {
    x.(mCost := h.costs.mCost, tCost := h.costs.tCost, lanes := h.costs.lanes, threads := h.costs.lanes,
       salt := x.salt.(len := |h.salt|), out := x.out.(len := |h.out|))
  }

  /** `argon2_decode_string`; the lengths in `x` are the capacities of the two buffers. */
  function Decoded(x: Context, s: seq<Char>, typ: int): Parsed<Hash> {
    var c := ParseCosts(s, typ);
    if c.Fail? then Fail(c.code) else
    var b := ParseBins(c.rest, x.salt.len, x.out.len);
    if b.Fail? then Fail(b.code) else
    var h := Hash(c.value, b.value.0, b.value.1);
    BinLengths(c.rest, x.salt.len, x.out.len);
    var code := ValidateInputs(Filled(x, h));
    if code != Ok then Fail(code)
    else if b.rest == [] then Got(h, []) else Fail(DecodingFail)
  }

  lemma BinLengths(s: seq<Char>, saltCap: nat, outCap: nat)
    ensures var b := ParseBins(s, saltCap, outCap); b.Got? ==> |b.value.0| < U32 && |b.value.1| < U32
  {
  }

  // ------------------------------------------------------ one piece at a time

  lemma StripText(t: seq<Char>, rest: seq<Char>)
    ensures Strip(t + rest, t) == Got((), rest)
  {
    assert (t + rest)[..|t|] == t && (t + rest)[|t|..] == rest;
  }

  lemma StripBack(s: seq<Char>, t: seq<Char>)
    requires Strip(s, t).Got?
    ensures s == t + Strip(s, t).rest
  {
  }

  lemma FieldText(t: seq<Char>, v: u32, rest: seq<Char>)
    requires rest == [] || !Decimal.IsDigit(rest[0])
    ensures Field(t + (Decimal.Dec(v) + rest), t) == Got(v, rest)
  {
    hide Decimal.Dec, Decimal.ReadNumber;
    StripText(t, Decimal.Dec(v) + rest);
    Decimal.ReadPrinted(v, rest, U32 - 1);
    assert (Decimal.Dec(v) + rest)[|Decimal.Dec(v)|..] == rest;
  }

  lemma FieldBack(s: seq<Char>, t: seq<Char>)
    requires Field(s, t).Got?
    ensures s == t + (Decimal.Dec(Field(s, t).value) + Field(s, t).rest)
  {
    hide Decimal.Dec, Decimal.ReadNumber;
    StripBack(s, t);
    var a := Strip(s, t).rest;
    Decimal.PrintRead(a, U32 - 1);
    var r := Decimal.ReadNumber(a, U32 - 1);
    assert a == a[..r.len] + a[r.len..];
  }

  lemma BinText(bin: seq<byte>, rest: seq<Char>, cap: nat)
    requires |bin| <= cap < U32 && (rest == [] || rest[0] == '$' as int)
    ensures BinField(Ascii("$") + (Encoded(bin, Unpadded()) + rest), cap) == Got(bin, rest)
  {
    hide Encoded, Base64Decode.Decoded;
    var text := Encoded(bin, Unpadded());
    StripText(Ascii("$"), text + rest);
    Base64Laws.RoundTripWithin(bin, rest, cap, Unpadded());
    assert (text + rest)[|text|..] == rest;
  }

  lemma BinBack(s: seq<Char>, cap: nat)
    requires BinField(s, cap).Got?
    ensures var b := BinField(s, cap);
            |b.rest| <= |s| - 1 &&
            var t := s[1..|s| - |b.rest|];
            s == Ascii("$") + (t + b.rest) && (t == Encoded(b.value, Unpadded()) <==> Base64Laws.Plain(t))
  {
    hide Encoded, Base64Decode.Decoded;
    StripBack(s, Ascii("$"));
    var a := Strip(s, Ascii("$")).rest;
    Base64Laws.Canonical(a, cap, true, Unpadded());
    var b := BinField(s, cap);
    var t := s[1..|s| - |b.rest|];
    var r := Base64Decode.Decoded(a, None, cap, true, Unpadded());
    assert a[..r.end] == t;
    assert a == a[..r.end] + a[r.end..];
  }

  // ------------------------------------------------------------ round trip

  lemma CostsRead(c: Costs, typ: int, rest: seq<Char>)
    requires Known(typ) && (rest == [] || !Decimal.IsDigit(rest[0]))
    ensures ParseCosts(CostString(c, typ) + rest, typ) == Got(c, rest)
  {
    hide Decimal.Dec, Field, Ascii;
    var d := (v: u32) => Decimal.Dec(v);
    Comma();
    var l := Ascii(",p=") + (d(c.lanes) + rest);
    var t := Ascii(",t=") + (d(c.tCost) + l);
    var m := Ascii("$m=") + (d(c.mCost) + t);
    var v := Ascii("$v=") + (d(VERSION) + m);
    assert CostString(c, typ) + rest == Prefix(typ) + v by {
      Nest8(Prefix(typ), Ascii("$v="), d(VERSION), Ascii("$m="), d(c.mCost), Ascii(",t="), d(c.tCost), Ascii(",p="),
            d(c.lanes), rest);
    }
    StripText(Prefix(typ), v);
    FieldText(Ascii("$v="), VERSION, m);
    FieldText(Ascii("$m="), c.mCost, t);
    FieldText(Ascii(",t="), c.tCost, l);
    FieldText(Ascii(",p="), c.lanes, rest);
  }

  /** Another version, or a type that is neither Argon2i nor Argon2id, is an incorrect type. */
  lemma WrongVersion(x: Context, typ: int, v: u32, rest: seq<Char>)
    requires rest == [] || !Decimal.IsDigit(rest[0])
    ensures Known(typ) && v != 0x13 ==>
              Decoded(x, Prefix(typ) + (Ascii("$v=") + (Decimal.Dec(v) + rest)), typ) == Fail(IncorrectType)
    ensures typ != 1 && typ != 2 ==> Decoded(x, rest, typ) == Fail(IncorrectType)
  {
    hide Decimal.Dec, Field, Ascii, Prefix;
    if Known(typ) && v != 0x13 {
      StripText(Prefix(typ), Ascii("$v=") + (Decimal.Dec(v) + rest));
      FieldText(Ascii("$v="), v, rest);
    }
  }

  /** The separators are not digits. */
  lemma Comma()
    ensures Ascii("$v=")[0] == '$' as int && Ascii("$m=")[0] == '$' as int && Ascii("$")[0] == '$' as int
    ensures Ascii(",t=")[0] == ',' as int && Ascii(",p=")[0] == ',' as int
  {
  }

  lemma Nest8(a: seq<Char>, b: seq<Char>, c: seq<Char>, d: seq<Char>, e: seq<Char>, f: seq<Char>, g: seq<Char>,
      h: seq<Char>, i: seq<Char>, z: seq<Char>)
    ensures a + (b + (c + (d + (e + (f + (g + (h + i))))))) + z == a + (b + (c + (d + (e + (f + (g + (h + (i + z))))))))
  {
    Shift(h, i, z);
    Shift(g, h + i, z);
    Shift(f, g + (h + i), z);
    Shift(e, f + (g + (h + i)), z);
    Shift(d, e + (f + (g + (h + i))), z);
    Shift(c, d + (e + (f + (g + (h + i)))), z);
    Shift(b, c + (d + (e + (f + (g + (h + i))))), z);
    Shift(a, b + (c + (d + (e + (f + (g + (h + i)))))), z);
  }

  lemma Shift(a: seq<Char>, b: seq<Char>, c: seq<Char>)
    ensures a + b + c == a + (b + c)
  {
  }

  lemma BinsRead(salt: seq<byte>, out: seq<byte>, saltCap: nat, outCap: nat)
    requires |salt| <= saltCap < U32 && |out| <= outCap < U32
    ensures ParseBins(BinString(salt, out), saltCap, outCap) == Got((salt, out), [])
  {
    hide Encoded, BinField, Ascii;
    Comma();
    var o := Ascii("$") + Encoded(out, Unpadded());
    BinText(salt, o, saltCap);
    BinText(out, [], outCap);
    assert Encoded(out, Unpadded()) + [] == Encoded(out, Unpadded());
  }

  /** A printed hash reads back with its costs, salt and output, given room and a context that is valid with them. */
  lemma RoundTrip(x: Context, h: Hash, typ: int)
    requires Known(typ) && |h.salt| <= x.salt.len && |h.out| <= x.out.len
    requires ValidateInputs(Filled(x, h)) == Ok
    ensures Decoded(x, HashString(h, typ), typ) == Got(h, [])
  {
    hide CostString, ParseCosts, ParseBins, ValidateInputs, BinString;
    StartsWithDollar(h);
    CostsRead(h.costs, typ, BinString(h.salt, h.out));
    BinsRead(h.salt, h.out, x.salt.len, x.out.len);
  }

  lemma StartsWithDollar(h: Hash)
    ensures BinString(h.salt, h.out) != [] && !Decimal.IsDigit(BinString(h.salt, h.out)[0])
  {
    hide Encoded;
    Comma();
  }

  // ----------------------------------------------------------- canonicity

  lemma CostsBack(s: seq<Char>, typ: int)
    requires ParseCosts(s, typ).Got?
    ensures Known(typ) && s == CostString(ParseCosts(s, typ).value, typ) + ParseCosts(s, typ).rest
  {
    hide Decimal.Dec, Field, Ascii, Strip;
    var p := Strip(s, Prefix(typ));
    StripBack(s, Prefix(typ));
    FieldBack(p.rest, Ascii("$v="));
    var v := Field(p.rest, Ascii("$v="));
    FieldBack(v.rest, Ascii("$m="));
    var m := Field(v.rest, Ascii("$m="));
    FieldBack(m.rest, Ascii(",t="));
    var t := Field(m.rest, Ascii(",t="));
    FieldBack(t.rest, Ascii(",p="));
    var l := Field(t.rest, Ascii(",p="));
    Nest8(Prefix(typ), Ascii("$v="), Decimal.Dec(v.value), Ascii("$m="), Decimal.Dec(m.value), Ascii(",t="),
      Decimal.Dec(t.value), Ascii(",p="), Decimal.Dec(l.value), l.rest);
  }

  lemma BinsBack(s: seq<Char>, saltCap: nat, outCap: nat)
    requires ParseBins(s, saltCap, outCap).Got? && ParseBins(s, saltCap, outCap).rest == []
    ensures var b := ParseBins(s, saltCap, outCap).value;
            s == BinString(b.0, b.1) <==> Base64Laws.Plain(s)
  {
    hide Encoded, BinField;
    var a := BinField(s, saltCap);
    var b := BinField(a.rest, outCap);
    BinBack(s, saltCap);
    BinBack(a.rest, outCap);
    var t, u := s[1..|s| - |a.rest|], a.rest[1..];
    assert a.rest[1..|a.rest| - 0] == u;
    assert u + [] == u;
    Base64Laws.EncodedIsPlain(a.value, Unpadded());
    Base64Laws.EncodedIsPlain(b.value, Unpadded());
    TwoBins(s, t, u, Encoded(a.value, Unpadded()), Encoded(b.value, Unpadded()));
  }

  lemma TwoBins(s: seq<Char>, t: seq<Char>, u: seq<Char>, e: seq<Char>, f: seq<Char>)
    requires s == Ascii("$") + (t + (Ascii("$") + u))
    requires t == e <==> Base64Laws.Plain(t)
    requires u == f <==> Base64Laws.Plain(u)
    requires Base64Laws.Plain(e) && Base64Laws.Plain(f)
    ensures s == Ascii("$") + (e + (Ascii("$") + f)) <==> Base64Laws.Plain(s)
  {
    hide Ascii;
    if Base64Laws.Plain(s) {
      forall i | 0 <= i < |t| ensures 0 <= t[i] {
        assert s[1 + i] == t[i];
      }
      forall i | 0 <= i < |u| ensures 0 <= u[i] {
        assert s[2 + |t| + i] == u[i];
      }
    }
    if s == Ascii("$") + (e + (Ascii("$") + f)) {
      Comma();
      forall i | 0 <= i < |s| ensures 0 <= s[i] {
        if i == 0 || i == 1 + |e| {
        } else if i < 1 + |e| {
          assert s[i] == e[i - 1];
        } else {
          assert s[i] == f[i - 2 - |e|];
        }
      }
    }
  }

  lemma CostsPlain(c: Costs, typ: int)
    ensures Base64Laws.Plain(CostString(c, typ))
  {
    hide Decimal.Dec;
  }

  lemma PlainConcat(a: seq<Char>, b: seq<Char>)
    requires Base64Laws.Plain(a)
    ensures Base64Laws.Plain(a + b) <==> Base64Laws.Plain(b)
  {
    if Base64Laws.Plain(a + b) {
      forall i | 0 <= i < |b| ensures 0 <= b[i] {
        assert (a + b)[|a| + i] == b[i];
      }
    }
  }

  /** An accepted string is the text of what it was read as, exactly when it has no negative character. */
  lemma Canonical(x: Context, s: seq<Char>, typ: int)
    requires Decoded(x, s, typ).Got?
    ensures s == HashString(Decoded(x, s, typ).value, typ) <==> Base64Laws.Plain(s)
  {
    hide ParseCosts, ParseBins, CostString, BinString, ValidateInputs;
    var c := ParseCosts(s, typ);
    var b := ParseBins(c.rest, x.salt.len, x.out.len);
    CostsBack(s, typ);
    BinsBack(c.rest, x.salt.len, x.out.len);
    CostsPlain(c.value, typ);
    PlainConcat(CostString(c.value, typ), c.rest);
    SamePrefix(CostString(c.value, typ), c.rest, BinString(b.value.0, b.value.1));
  }

  lemma SamePrefix(a: seq<Char>, b: seq<Char>, c: seq<Char>)
    ensures a + b == a + c <==> b == c
  {
    if a + b == a + c {
      assert (a + b)[|a|..] == b && (a + c)[|a|..] == c;
    }
  }

  /** A string accepted for one type fails to decode for the other. */
  lemma TypesSeparate(x: Context, y: Context, s: seq<Char>, typ: int, other: int)
    requires Known(typ) && Known(other) && typ != other
    requires ParseCosts(s, typ).Got?
    ensures Decoded(y, s, other) == Fail(DecodingFail)
  {
    hide Decimal.Dec, TakeU32, Decimal.ReadNumber, ParseBins, ValidateInputs;
    var p := Strip(s, Prefix(typ));
    StripBack(s, Prefix(typ));
    StripBack(p.rest, Ascii("$v="));
    if typ == ARGON2_ID {
      assert s[8] == 'd' as int;
      assert other == ARGON2_I && |Prefix(other)| == 8;
      var q := Strip(s, Prefix(other));
      if q.Got? {
        assert q.rest[0] == s[8];
        assert Ascii("$v=")[0] == '$' as int;
        assert q.rest[..3][0] == q.rest[0];
      }
    } else {
      assert s[8] == p.rest[0] == '$' as int;
      assert s[..9][8] == s[8] && Prefix(other)[8] == 'd' as int;
    }
  }
}
