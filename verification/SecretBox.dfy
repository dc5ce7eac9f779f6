/**
 Secret boxes in the two layouts: detached tag and ciphertext, and the padded form with
 32 leading zero bytes. The Salsa20 keystream block, the subkey derivation and the
 authenticator are parameters.
 */
module SecretBox {
  import opened Machine
  import opened Bytes

  type Key = s: seq<byte> | |s| == 32 witness Zeros(32)
  type Nonce = s: seq<byte> | |s| == 24 witness Zeros(24)
  type KeyBlock = s: seq<byte> | |s| == 64 witness Zeros(64)
  type Mac = s: seq<byte> | |s| == 16 witness Zeros(16)

  /** Keystream block by number under a subkey and the last 8 nonce bytes, subkey derivation, authenticator. */
  datatype Primitives = Primitives(
    salsa20: (Key, seq<byte>, u64) -> KeyBlock,
    hsalsa20: (seq<byte>, Key) -> Key,
    poly1305: (seq<byte>, seq<byte>) -> Mac)

  const MACBYTES := 16
  /** The largest object less the tag. */
  const MESSAGEBYTES_MAX := 0xFFFF_FFFF_FFFF_FFFF - MACBYTES

  function StreamByte(p: Primitives, subkey: Key, n: seq<byte>, i: nat): byte {
    p.salsa20(subkey, n, Wrap64(i / 64))[i % 64]
  }

  /** `crypto_stream_salsa20_xor_ic`: the keystream from block `ic` on. */
  function XorFrom(p: Primitives, subkey: Key, n: seq<byte>, ic: nat, m: seq<byte>): (c: seq<byte>)
    ensures |c| == |m|
    ensures forall i :: 0 <= i < |m| ==> c[i] == Xor(m[i], StreamByte(p, subkey, n, 64 * ic + i))
  {
    seq(|m|, i requires 0 <= i < |m| => Xor(m[i], StreamByte(p, subkey, n, 64 * ic + i)))
  }

  /** `crypto_stream_xsalsa20_xor`. */
  function XSalsa20(p: Primitives, k: Key, n: Nonce, m: seq<byte>): (c: seq<byte>)
    ensures |c| == |m|
  {
    XorFrom(p, p.hsalsa20(n, k), n[16..], 0, m)
  }

  lemma XorFromTwice(p: Primitives, subkey: Key, n: seq<byte>, ic: nat, m: seq<byte>)
    ensures XorFrom(p, subkey, n, ic, XorFrom(p, subkey, n, ic, m)) == m
  {
    hide Xor, StreamByte;
    var c := XorFrom(p, subkey, n, ic, m);
    forall i | 0 <= i < |m| ensures XorFrom(p, subkey, n, ic, c)[i] == m[i] {
      XorTwice(m[i], StreamByte(p, subkey, n, 64 * ic + i));
    }
  }

  /** The first 32 keystream bytes. */
  function MacKey(p: Primitives, k: Key, n: Nonce): seq<byte> { XSalsa20(p, k, n, Zeros(32)) }

  // ------------------------------------------------------ specification

  /** The message under the keystream after its first 32 bytes, in one piece. */
  function Body(p: Primitives, k: Key, n: Nonce, m: seq<byte>): (c: seq<byte>)
    ensures |c| == |m|
  {
    XSalsa20(p, k, n, Zeros(32) + m)[32..]
  }

  function Tag(p: Primitives, k: Key, n: Nonce, c: seq<byte>): Mac { p.poly1305(MacKey(p, k, n), c) }

  /** `crypto_secretbox_easy`: tag, then ciphertext. */
  function Easy(p: Primitives, k: Key, n: Nonce, m: seq<byte>): seq<byte> {
    var c := Body(p, k, n, m);
    Tag(p, k, n, c) + c
  }

  /** The box in terms of the Salsa20 blocks under the derived key: block 0 gives the authenticator key and covers the
      first 32 bytes of the message. */
  lemma EasyIs(p: Primitives, k: Key, n: Nonce, m: seq<byte>, i: nat)
    requires |m| < 0x8000_0000_0000_0000
    ensures var sub := p.hsalsa20(n, k);
            var e := Easy(p, k, n, m);
            && |e| == 16 + |m|
            && (i < |m| ==> e[16 + i] == Xor(m[i], p.salsa20(sub, n[16..], (32 + i) / 64)[(32 + i) % 64]))
            && e[..16] == p.poly1305(p.salsa20(sub, n[16..], 0)[..32], e[16..])
  {
    hide Xor;
    var e, c := Easy(p, k, n, m), Body(p, k, n, m);
    assert e[16..] == c && e[..16] == Tag(p, k, n, c);
    KeyIsFirstHalf(p, k, n);
    if i < |m| {
      var z := Zeros(32) + m;
      assert c[i] == XSalsa20(p, k, n, z)[32 + i] && z[32 + i] == m[i];
      assert Wrap64((32 + i) / 64) == (32 + i) / 64;
    }
  }

  lemma KeyIsFirstHalf(p: Primitives, k: Key, n: Nonce)
    ensures MacKey(p, k, n) == p.salsa20(p.hsalsa20(n, k), n[16..], 0)[..32]
  {
    hide Xor;
    var b := p.salsa20(p.hsalsa20(n, k), n[16..], 0);
    forall i | 0 <= i < 32 ensures MacKey(p, k, n)[i] == b[i] {
      XorNone(b[i]);
    }
  }

  /** `crypto_secretbox_open_easy`. */
  function OpenEasy(p: Primitives, k: Key, n: Nonce, s: seq<byte>): Option<seq<byte>> {
    if |s| < MACBYTES then None
    else if s[..16] != Tag(p, k, n, s[16..]) then None
    else Some(Body(p, k, n, s[16..]))
  }

  /** `crypto_secretbox_xsalsa20poly1305` on a message with its 32 leading bytes. */
  function NaCl(p: Primitives, k: Key, n: Nonce, m: seq<byte>): Option<seq<byte>> {
    if |m| < 32 then None
    else
      var c := XSalsa20(p, k, n, m);
      Some(Zeros(16) + p.poly1305(c[..32], c[32..]) + c[32..])
  }

  /** `crypto_secretbox_xsalsa20poly1305_open`. */
  function NaClOpen(p: Primitives, k: Key, n: Nonce, c: seq<byte>): Option<seq<byte>> {
    if |c| < 32 then None
    else if c[16..32] != p.poly1305(MacKey(p, k, n), c[32..]) then None
    else Some(Zeros(32) + XSalsa20(p, k, n, c)[32..])
  }

  // ----------------------------------------------------------------- laws

  lemma BodyAt(p: Primitives, k: Key, n: Nonce, m: seq<byte>, head: seq<byte>)
    requires |head| == 32
    ensures XSalsa20(p, k, n, head + m)[32..] == Body(p, k, n, m)
  {
    hide Xor, StreamByte;
    var x, y := head + m, Zeros(32) + m;
    forall i | 0 <= i < |m| ensures XSalsa20(p, k, n, x)[32..][i] == Body(p, k, n, m)[i] {
      assert x[32 + i] == m[i] == y[32 + i];
    }
  }

  lemma KeyAt(p: Primitives, k: Key, n: Nonce, m: seq<byte>)
    ensures XSalsa20(p, k, n, Zeros(32) + m)[..32] == MacKey(p, k, n)
  {
    hide Xor, StreamByte;
    var x := Zeros(32) + m;
    forall i | 0 <= i < 32 ensures XSalsa20(p, k, n, x)[i] == MacKey(p, k, n)[i] {
      assert x[i] == Zeros(32)[i];
    }
  }

  /** The padded box of 32 zeros and a message is 16 zeros and the easy box. */
  lemma LayoutsAgree(p: Primitives, k: Key, n: Nonce, m: seq<byte>)
    ensures NaCl(p, k, n, Zeros(32) + m) == Some(Zeros(16) + Easy(p, k, n, m))
  {
    hide XSalsa20;
    KeyAt(p, k, n, m);
    var c := Body(p, k, n, m);
    assert Zeros(16) + Tag(p, k, n, c) + c == Zeros(16) + (Tag(p, k, n, c) + c);
  }

  /** A sum of a message with the same keystream twice. */
  lemma BodyTwice(p: Primitives, k: Key, n: Nonce, m: seq<byte>)
    ensures Body(p, k, n, Body(p, k, n, m)) == m
  {
    hide XorFrom;
    var whole := Zeros(32) + m;
    var c := XSalsa20(p, k, n, whole);
    XorFromTwice(p, p.hsalsa20(n, k), n[16..], 0, whole);
    assert c == c[..32] + c[32..];
    BodyAt(p, k, n, c[32..], c[..32]);
    assert whole[32..] == m;
  }

  /** Opening an easy box gives the message; any other tag is rejected. */
  lemma EasyOpens(p: Primitives, k: Key, n: Nonce, m: seq<byte>, tag: Mac)
    ensures OpenEasy(p, k, n, Easy(p, k, n, m)) == Some(m)
    ensures OpenEasy(p, k, n, tag + Body(p, k, n, m)) == if tag == Tag(p, k, n, Body(p, k, n, m)) then Some(m) else None
  {
    hide Body;
    var c := Body(p, k, n, m);
    BodyTwice(p, k, n, m);
    var s := tag + c;
    assert s[..16] == tag && s[16..] == c;
    var t := Tag(p, k, n, c) + c;
    assert t[..16] == Tag(p, k, n, c) && t[16..] == c;
  }

  /** Opening a padded box gives 32 zeros and the message. */
  lemma NaClOpens(p: Primitives, k: Key, n: Nonce, m: seq<byte>)
    ensures NaCl(p, k, n, Zeros(32) + m).Some?
    ensures NaClOpen(p, k, n, NaCl(p, k, n, Zeros(32) + m).value) == Some(Zeros(32) + m)
  {
    hide XSalsa20, Body;
    LayoutsAgree(p, k, n, m);
    var c := Body(p, k, n, m);
    var s := Zeros(16) + Easy(p, k, n, m);
    var head := Zeros(16) + Tag(p, k, n, c);
    assert s == head + c && s[16..32] == Tag(p, k, n, c) && s[32..] == c;
    BodyAt(p, k, n, c, head);
    BodyTwice(p, k, n, m);
  }

  // ----------------------------------------------- detached form, in place

  /** The part of the message that shares keystream block 0 with the authenticator key. */
  function FirstPart(mlen: nat): (mlen0: nat)
    ensures mlen0 <= mlen && mlen0 <= 32 && (mlen0 < mlen ==> mlen0 == 32)
  {
    if mlen > 64 - 32 then 64 - 32 else mlen
  }

  /** Block 0 then the keystream from block 1 on are the one keystream of `Body`, whatever came first in block 0. */
  lemma SplitIsBody(p: Primitives, k: Key, n: Nonce, m: seq<byte>, head: seq<byte>, first: seq<byte>, rest: seq<byte>)
    requires |head| == 32
    requires first == XorFrom(p, p.hsalsa20(n, k), n[16..], 0, head + m[..FirstPart(|m|)])
    requires rest == XorFrom(p, p.hsalsa20(n, k), n[16..], 1, m[FirstPart(|m|)..])
    ensures first[32..] + rest == Body(p, k, n, m)
    ensures head == Zeros(32) ==> first[..32] == MacKey(p, k, n)
  {
    hide Xor, StreamByte, FirstPart;
    var a, whole := FirstPart(|m|), Zeros(32) + m;
    var x := head + m[..a];
    forall i | 0 <= i < |m| ensures (first[32..] + rest)[i] == Body(p, k, n, m)[i] {
      assert whole[32 + i] == m[i];
      if i < a {
        assert x[32 + i] == m[i];
      } else {
        assert a == 32 && 64 * 1 + (i - a) == 32 + i;
        assert m[a..][i - a] == m[i];
      }
    }
    if head == Zeros(32) {
      forall i | 0 <= i < 32 ensures first[i] == MacKey(p, k, n)[i] {
        assert x[i] == Zeros(32)[i];
      }
    }
  }

  /** A copying loop between two buffers. */
  method CopyBytes(dst: array<byte>, to: nat, src: array<byte>, from: nat, count: nat)
    requires dst != src && to + count <= dst.Length && from + count <= src.Length
    modifies dst
    ensures dst[to..to + count] == src[from..from + count]
    ensures dst[..to] == old(dst[..to]) && dst[to + count..] == old(dst[to + count..])
  {
    for i := 0 to count
      invariant forall j :: 0 <= j < dst.Length ==>
          dst[j] == if to <= j < to + i then src[from + j - to] else old(dst[j])
    {
      dst[to + i] := src[from + i];
    }
  }

  /** The same place, or places that do not meet. */
  predicate Separate(m: array<byte>, from: nat, out: array<byte>, at: nat, count: nat) {
    m == out ==> from == at || from + count <= at || at + count <= from
  }

  /** The first message bytes go through block 0. */
  method ThroughBlock0(p: Primitives, subkey: Key, n: Nonce, block0: array<byte>, out: array<byte>, at: nat,
                       m: array<byte>, from: nat, mlen0: nat)
    returns (ghost first: seq<byte>)
    requires block0.Length == 64 && block0 != out && block0 != m && mlen0 <= 32
    requires from + mlen0 <= m.Length && at + mlen0 <= out.Length
    modifies block0, out
    ensures first == XorFrom(p, subkey, n[16..], 0, old(block0[..32]) + old(m[from..from + mlen0]))
    ensures block0[..32] == first[..32] && out[at..at + mlen0] == first[32..]
    ensures out[..at] == old(out[..at]) && out[at + mlen0..] == old(out[at + mlen0..])
  {
    hide XorFrom;
    CopyBytes(block0, 32, m, from, mlen0);
    assert block0[..32 + mlen0] == block0[..32] + block0[32..32 + mlen0];
    var keyed := XorFrom(p, subkey, n[16..], 0, block0[..32 + mlen0]);
    first := keyed;
    CopyInto(block0, 0, keyed);
    assert block0[0..0 + |first|] == block0[..32] + block0[32..32 + mlen0] == first[..32] + first[32..];
    CopyBytes(out, at, block0, 32, mlen0);
  }

  /** What is left of the message when its first part has been written out. */
  lemma RestUntouched(m: array<byte>, from: nat, out: array<byte>, at: nat, mlen0: nat, count: nat, was: seq<byte>)
    requires mlen0 <= count && from + count <= m.Length && at + count <= out.Length && |was| == m.Length
    requires Separate(m, from, out, at, count)
    requires m == out ==> m[..at] == was[..at] && m[at + mlen0..] == was[at + mlen0..]
    requires m != out ==> m[..] == was
    ensures m[from + mlen0..from + count] == was[from + mlen0..from + count]
  {
    forall i | from + mlen0 <= i < from + count ensures m[i] == was[i] {
      if m == out {
        if i < at {
          assert m[i] == m[..at][i];
        } else {
          assert m[i] == m[at + mlen0..][i - (at + mlen0)];
        }
      }
    }
  }

  /** Both halves of the split, from `m[from..from + count]` to `out[at..at + count]`. */
  method SplitXor(p: Primitives, k: Key, n: Nonce, block0: array<byte>, out: array<byte>, at: nat, m: array<byte>,
                  from: nat, count: nat)
    requires block0.Length == 64 && block0 != out && block0 != m
    requires from + count <= m.Length && at + count <= out.Length && Separate(m, from, out, at, count)
    modifies block0, out
    ensures out[at..at + count] == Body(p, k, n, old(m[from..from + count]))
    ensures old(block0[..32]) == Zeros(32) ==> block0[..32] == MacKey(p, k, n)
    ensures out[..at] == old(out[..at]) && out[at + count..] == old(out[at + count..])
  {
    hide *;
    var subkey, mlen0 := p.hsalsa20(n, k), FirstPart(count);
    ghost var data, head, was, outWas := m[from..from + count], block0[..32], m[..], out[..];
    Sliced(was, from, mlen0, count);
    assert m[from..from + mlen0] == was[from..from + mlen0] && data == was[from..from + count];
    ghost var first := ThroughBlock0(p, subkey, n, block0, out, at, m, from, mlen0);
    RestUntouched(m, from, out, at, mlen0, count, was);
    ghost var rest := XorFrom(p, subkey, n[16..], 1, data[mlen0..]);
    SplitIsBody(p, k, n, data, head, first, rest);
    ghost var half := out[..];
    if count > mlen0 {
      CopyInto(out, at + mlen0, XorFrom(p, subkey, n[16..], 1, m[from + mlen0..from + count]));
    }
    assert out[at + mlen0..at + count] == rest;
    Halves(out[..], half, outWas, at, mlen0, count);
    assert out[..][at..at + count] == out[at..at + count] && out[..][at + count..] == out[at + count..];
  }

  lemma Sliced(was: seq<byte>, from: nat, mlen0: nat, count: nat)
    requires mlen0 <= count && from + count <= |was|
    ensures was[from..from + count][..mlen0] == was[from..from + mlen0]
    ensures was[from..from + count][mlen0..] == was[from + mlen0..from + count]
  {
  }

  lemma Halves(out: seq<byte>, half: seq<byte>, was: seq<byte>, at: nat, mlen0: nat, count: nat)
    requires mlen0 <= count && at + count <= |out| == |half| == |was|
    requires out[..at + mlen0] == half[..at + mlen0] && out[at + count..] == half[at + count..]
    requires half[..at] == was[..at] && half[at + mlen0..] == was[at + mlen0..]
    ensures out[at..at + count] == half[at..at + mlen0] + out[at + mlen0..at + count]
    ensures out[..at] == was[..at] && out[at + count..] == was[at + count..]
  {
    assert out[at..at + mlen0] == out[..at + mlen0][at..] && half[at..at + mlen0] == half[..at + mlen0][at..];
    assert out[..at] == out[..at + mlen0][..at] && half[..at] == half[..at + mlen0][..at];
    assert half[at + count..] == half[at + mlen0..][count - mlen0..]
        && was[at + count..] == was[at + mlen0..][count - mlen0..];
  }

  /** The two ranges meet without being the same: the test on addresses before the move. */
  predicate Overlap(m: array<byte>, from: nat, out: array<byte>, at: nat, count: nat) {
    m == out && ((at > from && at - from < count) || (from > at && from - at < count))
  }

  lemma OverlapSame(m: array<byte>, from: nat, out: array<byte>, at: nat, count: nat)
    requires Overlap(m, from, out, at, count)
    ensures m == out
  {
  }

  /** After the move, if there was one, the ranges are one or apart. */
  lemma NowSeparate(m: array<byte>, from: nat, out: array<byte>, at: nat, count: nat)
    ensures Separate(m, if Overlap(m, from, out, at, count) then at else from, out, at, count)
  {
  }

  lemma TagIs(p: Primitives, k: Key, n: Nonce, c: seq<byte>)
    ensures Tag(p, k, n, c) == p.poly1305(MacKey(p, k, n), c)
  {
  }

  /** Nothing but two ranges has changed. */
  predicate Framed(was: seq<byte>, now: seq<byte>, at: nat, count: nat, at': nat, count': nat) {
    |was| == |now| && forall i :: 0 <= i < |now| && !(at <= i < at + count) && !(at' <= i < at' + count') ==>
      now[i] == was[i]
  }

  lemma FrameKept(was: seq<byte>, half: seq<byte>, now: seq<byte>, at: nat, count: nat, at': nat, count': nat)
    requires |was| == |half| == |now| && at + count <= |was| && at' + count' <= |was|
    requires half[..at] == was[..at] && half[at + count..] == was[at + count..]
    requires now == half || (now[..at'] == half[..at'] && now[at' + count'..] == half[at' + count'..])
    ensures Framed(was, now, at, count, at', count')
  {
    forall i | 0 <= i < |now| && !(at <= i < at + count) && !(at' <= i < at' + count') ensures now[i] == was[i] {
      if i < at {
        assert half[i] == half[..at][i] && was[i] == was[..at][i];
      } else {
        assert half[i] == half[at + count..][i - (at + count)] && was[i] == was[at + count..][i - (at + count)];
      }
      if now != half {
        if i < at' {
          assert now[i] == now[..at'][i] && half[i] == half[..at'][i];
        } else {
          assert now[i] == now[at' + count'..][i - (at' + count')]
              && half[i] == half[at' + count'..][i - (at' + count')];
        }
      }
    }
  }

  /** `crypto_secretbox_detached`: `m[from..]` sealed into `c[at..]`, the tag into `mac[macAt..]`. The buffers may be
      the same one; only the tag must not lie on the ciphertext. */
  method Detached(p: Primitives, c: array<byte>, at: nat, mac: array<byte>, macAt: nat, m: array<byte>, from: nat,
                  mlen: nat, n: Nonce, k: Key)
    requires at + mlen <= c.Length && macAt + 16 <= mac.Length && from + mlen <= m.Length
    requires mac == c ==> macAt + 16 <= at || at + mlen <= macAt
    modifies c, mac
    ensures c[at..at + mlen] == Body(p, k, n, old(m[from..from + mlen]))
    ensures mac[macAt..macAt + 16] == Tag(p, k, n, Body(p, k, n, old(m[from..from + mlen])))
    ensures Framed(old(c[..]), c[..], at, mlen, if mac == c then macAt else at, if mac == c then 16 else mlen)
    ensures mac != c ==> Framed(old(mac[..]), mac[..], macAt, 16, macAt, 16)
  {
    hide *;
    ghost var data, was, macWas := m[from..from + mlen], c[..], mac[..];
    var source := from;
    if Overlap(m, from, c, at, mlen) {
      CopyInto(c, at, m[from..from + mlen]);
      OverlapSame(m, from, c, at, mlen);
      source := at;
    }
    NowSeparate(m, from, c, at, mlen);
    assert m[source..source + mlen] == data;
    var block0 := new byte[64];
    CopyInto(block0, 0, Zeros(32));
    assert block0[..32] == block0[0..0 + 32];
    SplitXor(p, k, n, block0, c, at, m, source, mlen);
    ghost var half := c[..];
    TagIs(p, k, n, c[at..at + mlen]);
    CopyInto(mac, macAt, p.poly1305(block0[..32], c[at..at + mlen]));
    SealedKept(c, at, mlen, mac, macAt, half);
    FrameKept(was, half, c[..], at, mlen, if mac == c then macAt else at, if mac == c then 16 else mlen);
    if mac != c {
      FrameKept(macWas, mac[..], mac[..], macAt, 16, macAt, 16);
    }
  }

  /** The tag leaves the ciphertext alone. */
  lemma SealedKept(c: array<byte>, at: nat, mlen: nat, mac: array<byte>, macAt: nat, was: seq<byte>)
    requires at + mlen <= c.Length == |was| && macAt + 16 <= mac.Length
    requires mac == c ==> macAt + 16 <= at || at + mlen <= macAt
    requires mac == c ==> c[..macAt] == was[..macAt] && c[macAt + 16..] == was[macAt + 16..]
    requires mac != c ==> c[..] == was
    ensures c[at..at + mlen] == was[at..at + mlen]
  {
    forall i | at <= i < at + mlen ensures c[i] == was[i] {
      if mac == c {
        if i < macAt {
          assert c[i] == c[..macAt][i];
        } else {
          assert c[i] == c[macAt + 16..][i - (macAt + 16)];
        }
      }
    }
  }

  /** `crypto_secretbox_easy`, also with the message in the buffer of the box; `misuse` ends the program. */
  method SealEasy(p: Primitives, c: array<byte>, m: array<byte>, from: nat, mlen: nat, n: Nonce, k: Key)
    returns (misuse: bool)
    requires from + mlen <= m.Length && mlen + 16 <= c.Length
    modifies c
    ensures misuse <==> mlen > MESSAGEBYTES_MAX
    ensures misuse ==> c[..] == old(c[..])
    ensures !misuse
        ==> c[..mlen + 16] == Easy(p, k, n, old(m[from..from + mlen])) && c[mlen + 16..] == old(c[mlen + 16..])
  {
    hide Body, Tag;
    if mlen > MESSAGEBYTES_MAX {
      return true;
    }
    Detached(p, c, 16, c, 0, m, from, mlen, n, k);
    assert c[..mlen + 16] == c[0..0 + 16] + c[16..16 + mlen];
    assert forall i :: mlen + 16 <= i < c.Length ==> c[..][i] == old(c[..])[i];
    return false;
  }

  /** `crypto_secretbox_open_detached`; without a buffer for the message it only verifies. */
  method OpenDetached(p: Primitives, m: array?<byte>, to: nat, c: array<byte>, at: nat, clen: nat, mac: Mac, n: Nonce,
                      k: Key)
    returns (ok: bool)
    requires at + clen <= c.Length && (m != null ==> to + clen <= m.Length)
    modifies m
    ensures ok <==> mac == Tag(p, k, n, old(c[at..at + clen]))
    ensures m != null && ok ==> m[to..to + clen] == Body(p, k, n, old(c[at..at + clen]))
    ensures m != null && ok ==> m[..to] == old(m[..to]) && m[to + clen..] == old(m[to + clen..])
    ensures m != null && !ok ==> m[..] == old(m[..])
  {
    hide Body, XSalsa20, XorFrom;
    var block0 := new byte[64];
    CopyInto(block0, 0, XSalsa20(p, k, n, Zeros(32)));
    assert block0[..32] == block0[0..0 + 32] == MacKey(p, k, n);
    ok := p.poly1305(block0[..32], c[at..at + clen]) == mac;
    if !ok || m == null {
      return;
    }
    ghost var data := c[at..at + clen];
    var source := at;
    if Overlap(c, at, m, to, clen) {
      CopyInto(m, to, c[at..at + clen]);
      source := to;
    }
    assert c[source..source + clen] == data;
    SplitXor(p, k, n, block0, m, to, c, source, clen);
  }

  /** `crypto_secretbox_open_easy`, also into the buffer of the box. */
  method UnsealEasy(p: Primitives, m: array?<byte>, to: nat, c: array<byte>, clen: nat, n: Nonce, k: Key)
      returns (ok: bool)
    requires clen <= c.Length && (m != null ==> to + clen <= m.Length + 16 && to <= m.Length)
    modifies m
    ensures ok <==> OpenEasy(p, k, n, old(c[..clen])).Some?
    ensures m != null && ok ==> m[to..to + clen - 16] == OpenEasy(p, k, n, old(c[..clen])).value
    ensures m != null && ok ==> m[..to] == old(m[..to]) && m[to + clen - 16..] == old(m[to + clen - 16..])
    ensures m != null && !ok ==> m[..] == old(m[..])
  {
    hide Body, Tag;
    if clen < 16 {
      return false;
    }
    assert c[..clen][16..] == c[16..16 + (clen - 16)] && c[..clen][..16] == c[..16];
    ok := OpenDetached(p, m, to, c, 16, clen - 16, c[..16], n, k);
  }

  // ------------------------------------------------- padded form, in place

  method ZeroHead(a: array<byte>, count: nat)
    requires count <= a.Length
    modifies a
    ensures a[..] == Zeros(count) + old(a[count..])
  {
    for i := 0 to count
      invariant forall j :: 0 <= j < a.Length ==> a[j] == if j < i then 0 else old(a[j])
    {
      a[i] := 0;
    }
  }

  lemma PaddedValue(p: Primitives, k: Key, n: Nonce, m: seq<byte>, x: seq<byte>)
    requires |m| >= 32 && x == XSalsa20(p, k, n, m)
    ensures NaCl(p, k, n, m) == Some(Zeros(16) + p.poly1305(x[..32], x[32..]) + x[32..])
  {
    hide XSalsa20;
  }

  lemma PaddedShape(c: seq<byte>, tag: seq<byte>, rest: seq<byte>)
    requires |tag| == 16 && |c| == 32 + |rest| && c[16..32] == tag && c[32..] == rest
    ensures Zeros(16) + c[16..] == Zeros(16) + tag + rest
  {
    assert c[16..] == c[16..32] + c[32..];
  }

  /** `crypto_secretbox_xsalsa20poly1305`. */
  method SealPadded(p: Primitives, c: array<byte>, m: array<byte>, n: Nonce, k: Key) returns (ok: bool)
    requires c.Length == m.Length
    modifies c
    ensures ok <==> m.Length >= 32
    ensures c[..] == if ok then NaCl(p, k, n, old(m[..])).value else old(c[..])
  {
    hide *;
    if m.Length < 32 {
      return false;
    }
    ghost var x := XSalsa20(p, k, n, m[..]);
    PaddedValue(p, k, n, m[..], x);
    CopyInto(c, 0, XSalsa20(p, k, n, m[..]));
    assert c[..] == c[0..0 + |x|];
    assert c[..32] == x[..32] && c[32..] == x[32..];
    ghost var tag := p.poly1305(x[..32], x[32..]);
    CopyInto(c, 16, p.poly1305(c[..32], c[32..]));
    assert c[..][16..32] == c[16..16 + 16] && c[..][32..] == c[16 + 16..] && c[..][16..] == c[16..];
    PaddedShape(c[..], tag, x[32..]);
    ZeroHead(c, 16);
    return true;
  }

  /** `crypto_secretbox_xsalsa20poly1305_open`. */
  method OpenPadded(p: Primitives, m: array<byte>, c: array<byte>, n: Nonce, k: Key) returns (ok: bool)
    requires m.Length == c.Length
    modifies m
    ensures ok <==> NaClOpen(p, k, n, old(c[..])).Some?
    ensures m[..] == if ok then NaClOpen(p, k, n, old(c[..])).value else old(m[..])
  {
    hide XSalsa20;
    ghost var was := c[..];
    if c.Length < 32 {
      return false;
    }
    var subkey := XSalsa20(p, k, n, Zeros(32));
    assert was[16..32] == c[16..32] && was[32..] == c[32..];
    if p.poly1305(subkey, c[32..]) != c[16..32] {
      return false;
    }
    ghost var x := XSalsa20(p, k, n, c[..]);
    CopyInto(m, 0, XSalsa20(p, k, n, c[..]));
    assert m[..] == m[0..0 + |x|] == x;
    assert m[32..] == x[32..];
    ZeroHead(m, 32);
    return true;
  }
}
