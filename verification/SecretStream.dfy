/**
 The secretstream construction: a key and a nonce (32-bit counter and inner nonce) that
 every chunk moves forward, with a fresh key on request or when the counter wraps.
 The ChaCha20 keystream, Poly1305 and HChaCha20 are parameters.
 */
module SecretStream {
  import opened Machine
  import opened Bytes
  import Limbs

  type Key = s: seq<byte> | |s| == 32 witness Zeros(32)
  type Nonce = s: seq<byte> | |s| == 12 witness Zeros(12)
  type KeyBlock = s: seq<byte> | |s| == 64 witness Zeros(64)
  type Mac = s: seq<byte> | |s| == 16 witness Zeros(16)

  /** Keystream block by number, one-time authenticator, and key derivation from 16 bytes. */
  datatype Primitives = Primitives(
    keystream: (Key, Nonce, u32) -> KeyBlock,
    poly1305: (Key, seq<byte>) -> Mac,
    hchacha20: (seq<byte>, Key) -> Key)

  const ABYTES := 17
  const HEADERBYTES := 24
  const MESSAGEBYTES_MAX: int := 64 * (0x1_0000_0000 - 2)

  datatype Keys = Keys(k: Key, nonce: Nonce)

  /** What a pull reports. */
  datatype Pulled = Failed | Aborted | Got(m: seq<byte>, tag: byte)

  // ------------------------------------------------------- specification

  function Counter(s: Keys): nat { Value(s.nonce[..4]) }

  function StreamByte(p: Primitives, s: Keys, ic: u32, i: nat): byte {
    p.keystream(s.k, s.nonce, Wrap32(ic as int + i / 64))[i % 64]
  }

  /** `crypto_stream_chacha20_ietf_xor_ic`. */
  function XorStream(p: Primitives, s: Keys, ic: u32, data: seq<byte>): (r: seq<byte>)
    ensures |r| == |data|
    ensures forall i :: 0 <= i < |data| ==> r[i] == Xor(data[i], StreamByte(p, s, ic, i))
  {
    seq(|data|, i requires 0 <= i < |data| => Xor(data[i], StreamByte(p, s, ic, i)))
  }

  lemma XorStreamTwice(p: Primitives, s: Keys, ic: u32, data: seq<byte>)
    ensures XorStream(p, s, ic, XorStream(p, s, ic, data)) == data
  {
    hide Xor, StreamByte;
    forall i | 0 <= i < |data| ensures XorStream(p, s, ic, XorStream(p, s, ic, data))[i] == data[i] {
      XorTwice(data[i], StreamByte(p, s, ic, i));
    }
  }

  /** Within the length limit the message blocks are numbered 2, 3, ... without reaching 0 or 1 again. */
  lemma StreamBlocksDistinct(i: nat, j: nat)
    requires i < MESSAGEBYTES_MAX && j < MESSAGEBYTES_MAX
    ensures Wrap32(2 + i / 64) >= 2
    ensures Wrap32(2 + i / 64) == Wrap32(2 + j / 64) <==> i / 64 == j / 64
  {
    assert i / 64 < 0x1_0000_0000 - 2 && j / 64 < 0x1_0000_0000 - 2;
  }

  /** The bytes the authenticator covers. The second padding has the length the code computes. */
  function MacData(ad: seq<byte>, block: seq<byte>, c: seq<byte>): seq<byte> {
    ad + Zeros((0x10 - |ad|) % 16) + block + c + Zeros((0x10 - 64 + |c|) % 16)
    + (Little(Wrap64(|ad|), 8) + Little(Wrap64(64 + |c|), 8))
  }

  function MacOf(p: Primitives, s: Keys, ad: seq<byte>, block: seq<byte>, c: seq<byte>): Mac {
    p.poly1305(p.keystream(s.k, s.nonce, 0)[..32], MacData(ad, block, c))
  }

  /** The 64-byte block that hides the tag. */
  function TagBlock(p: Primitives, s: Keys, tag: byte): (b: seq<byte>)
    ensures |b| == 64
  {
    XorStream(p, s, 1, [tag] + Zeros(63))
  }

  /** The chunk that carries `m` under tag `tag`: tag byte, ciphertext, authenticator. */
  function Sealed(p: Primitives, s: Keys, m: seq<byte>, ad: seq<byte>, tag: byte): (out: seq<byte>)
    ensures |out| == ABYTES + |m|
  {
    var block := TagBlock(p, s, tag);
    var c := XorStream(p, s, 2, m);
    [block[0]] + c + MacOf(p, s, ad, block, c)
  }

  function FirstCounter(): seq<byte> { [1, 0, 0, 0] }

  /** Key and inner nonce replaced, counter back to one. */
  function Rekeyed(p: Primitives, s: Keys): Keys {
    var r := XorStream(p, s, 0, s.k + s.nonce[4..]);
    Keys(r[..32], FirstCounter() + r[32..])
  }

  function Wraps(s: Keys, tag: byte): bool { tag / 2 % 2 == 1 || Counter(s) == 0 }

  /** The state after a chunk with authenticator `mac` and tag `tag`. */
  function After(p: Primitives, s: Keys, mac: Mac, tag: byte): Keys {
    var moved := Keys(s.k, Little(Wrap32(Counter(s) + 1), 4) + XorAll(s.nonce[4..], mac));
    if Wraps(moved, tag) then Rekeyed(p, moved) else moved
  }

  function PushState(p: Primitives, s: Keys, m: seq<byte>, ad: seq<byte>, tag: byte): Keys {
    After(p, s, MacOf(p, s, ad, TagBlock(p, s, tag), XorStream(p, s, 2, m)), tag)
  }

  /** The tag block rebuilt by the receiver from the first byte of the chunk. */
  function SeenBlock(p: Primitives, s: Keys, first: byte): seq<byte> {
    XorStream(p, s, 1, [first] + Zeros(63))[0 := first]
  }

  function SeenTag(p: Primitives, s: Keys, first: byte): byte {
    XorStream(p, s, 1, [first] + Zeros(63))[0]
  }

  function Opened(p: Primitives, s: Keys, input: seq<byte>, ad: seq<byte>): Pulled {
    if |input| < ABYTES then Failed else
    var mlen := |input| - ABYTES;
    if mlen > MESSAGEBYTES_MAX then Aborted else
    var c := input[1..1 + mlen];
    var mac := MacOf(p, s, ad, SeenBlock(p, s, input[0]), c);
    if mac != input[1 + mlen..] then Failed
    else Got(XorStream(p, s, 2, c), SeenTag(p, s, input[0]))
  }

  function PullState(p: Primitives, s: Keys, input: seq<byte>, ad: seq<byte>): Keys {
    var r := Opened(p, s, input, ad);
    if r.Got? then
      var c := input[1..1 + |input| - ABYTES];
      After(p, s, MacOf(p, s, ad, SeenBlock(p, s, input[0]), c), r.tag)
    else s
  }

  // ---------------------------------------------------------- one chunk

  lemma SeenIsSent(p: Primitives, s: Keys, tag: byte)
    ensures var b := TagBlock(p, s, tag); SeenTag(p, s, b[0]) == tag && SeenBlock(p, s, b[0]) == b
  {
    hide Xor, StreamByte;
    var b := TagBlock(p, s, tag);
    XorTwice(tag, StreamByte(p, s, 1, 0));
    var x, y := [b[0]] + Zeros(63), [tag] + Zeros(63);
    forall i | 0 < i < 64 ensures SeenBlock(p, s, b[0])[i] == b[i] {
      assert x[i] == y[i];
    }
  }

  /** A chunk pulled in the state it was pushed from gives message and tag back and moves both sides alike. */
  lemma PullAfterPush(p: Primitives, s: Keys, m: seq<byte>, ad: seq<byte>, tag: byte)
    requires |m| <= MESSAGEBYTES_MAX
    ensures var out := Sealed(p, s, m, ad, tag);
            Opened(p, s, out, ad) == Got(m, tag) && PullState(p, s, out, ad) == PushState(p, s, m, ad, tag)
  {
    hide XorStream, MacOf, TagBlock, After, SeenTag, SeenBlock;
    var out, block, c := Sealed(p, s, m, ad, tag), TagBlock(p, s, tag), XorStream(p, s, 2, m);
    SeenIsSent(p, s, tag);
    XorStreamTwice(p, s, 2, m);
    assert out[1..1 + |m|] == c && out[1 + |m|..] == MacOf(p, s, ad, block, c);
  }

  // ------------------------------------------------------------ counter

  lemma CounterOf(v: u32, rest: seq<byte>, k: Key)
    requires |rest| == 8
    ensures Counter(Keys(k, Little(v, 4) + rest)) == v
  {
    Four();
    ValueLittle(v, 4);
    assert (Little(v, 4) + rest)[..4] == Little(v, 4);
  }

  lemma Four()
    ensures Pow256(4) == U32
  {
    assert Pow256(4) == 256 * Pow256(3) && Pow256(3) == 256 * Pow256(2);
  }

  lemma LittleUnfold(v: nat, n: nat)
    ensures Little(v, n + 1) == [v % 256] + Little(v / 256, n)
  {
  }

  lemma LittleNone(v: nat)
    ensures Little(v, 0) == []
  {
  }

  lemma LittleStep(v: byte, n: nat)
    ensures Little(v, n + 1) == [v] + Little(0, n) && Little(v, 0) == []
  {
    LittleUnfold(v, n);
    hide Little;
    assert v % 256 == v && v / 256 == 0;
    LittleNone(v);
  }

  lemma FirstIsOne()
    ensures FirstCounter() == Little(1, 4)
  {
    LittleStep(1, 3);
    LittleStep(0, 2);
    LittleStep(0, 1);
    LittleStep(0, 0);
    hide Little;
    assert Little(1, 4) == [1] + ([0] + ([0] + ([0] + [])));
  }

  /** Both sides start at counter one. */
  lemma InitialCounter(p: Primitives, header: seq<byte>, key: Key)
    requires |header| == HEADERBYTES
    ensures Counter(Initial(p, header, key)) == 1
  {
    hide Little;
    FirstIsOne();
    CounterOf(1, header[16..], p.hchacha20(header[..16], key));
  }

  lemma RekeyedCounter(p: Primitives, s: Keys)
    ensures Counter(Rekeyed(p, s)) == 1
  {
    hide Value, XorStream, Little;
    FirstIsOne();
    CounterOf(1, Rekeyed(p, s).nonce[4..], Rekeyed(p, s).k);
    assert Rekeyed(p, s).nonce == Little(1, 4) + Rekeyed(p, s).nonce[4..];
  }

  /** A step takes a fresh key exactly when the tag asks for it or the counter is at its last value. */
  predicate Fresh(s: Keys, tag: byte) { tag / 2 % 2 == 1 || Counter(s) == 0xffff_ffff }

  lemma CounterBound(s: Keys)
    ensures Counter(s) < U32
  {
    Four();
    ValueBound(s.nonce[..4]);
  }

  /** The counter is never zero at a step start and grows by one until the key changes. */
  lemma AfterCounter(p: Primitives, s: Keys, mac: Mac, tag: byte)
    ensures Counter(After(p, s, mac, tag)) == if Fresh(s, tag) then 1 else Counter(s) + 1
    ensures Counter(After(p, s, mac, tag)) != 0
    ensures !Fresh(s, tag) ==> After(p, s, mac, tag).k == s.k
  {
    hide Counter, Rekeyed, Xor;
    CounterBound(s);
    var next := Wrap32(Counter(s) + 1);
    CounterOf(next, XorAll(s.nonce[4..], mac), s.k);
    var moved := Keys(s.k, Little(next, 4) + XorAll(s.nonce[4..], mac));
    RekeyedCounter(p, moved);
    assert next == 0 <==> Counter(s) == 0xffff_ffff;
  }

  // --------------------------------------------------------------- runs

  /** What the sender does: push a message, or call rekey. */
  datatype Event = Push(m: seq<byte>, ad: seq<byte>, tag: byte) | Rekey

  /** What the receiver is given in turn. */
  datatype Wire = Chunk(bytes: seq<byte>, ad: seq<byte>) | RekeyToo

  function SendState(p: Primitives, s: Keys, e: Event): Keys {
    match e
    case Push(m, ad, tag) => PushState(p, s, m, ad, tag)
    case Rekey => Rekeyed(p, s)
  }

  function SendWire(p: Primitives, s: Keys, e: Event): Wire {
    match e
    case Push(m, ad, tag) => Chunk(Sealed(p, s, m, ad, tag), ad)
    case Rekey => RekeyToo
  }

  function SenderAfter(p: Primitives, s: Keys, es: seq<Event>): Keys
    decreases |es|
  {
    if es == [] then s else SenderAfter(p, SendState(p, s, es[0]), es[1..])
  }

  function Sent(p: Primitives, s: Keys, es: seq<Event>): (ws: seq<Wire>)
    ensures |ws| == |es|
    decreases |es|
  {
    if es == [] then [] else [SendWire(p, s, es[0])] + Sent(p, SendState(p, s, es[0]), es[1..])
  }

  function ReceiveState(p: Primitives, s: Keys, w: Wire): Keys {
    match w
    case Chunk(bytes, ad) => PullState(p, s, bytes, ad)
    case RekeyToo => Rekeyed(p, s)
  }

  function ReceiverAfter(p: Primitives, s: Keys, ws: seq<Wire>): Keys
    decreases |ws|
  {
    if ws == [] then s else ReceiverAfter(p, ReceiveState(p, s, ws[0]), ws[1..])
  }

  /** The pulls' results along a run. */
  function Received(p: Primitives, s: Keys, ws: seq<Wire>): seq<Pulled>
    decreases |ws|
  {
    if ws == [] then []
    else (if ws[0].Chunk? then [Opened(p, s, ws[0].bytes, ws[0].ad)] else [])
         + Received(p, ReceiveState(p, s, ws[0]), ws[1..])
  }

  /** What was pushed along a run. */
  function Pushed(es: seq<Event>): seq<Pulled> {
    if es == [] then []
    else (if es[0].Push? then [Got(es[0].m, es[0].tag)] else []) + Pushed(es[1..])
  }

  predicate Fit(es: seq<Event>) {
    forall i :: 0 <= i < |es| && es[i].Push? ==> |es[i].m| <= MESSAGEBYTES_MAX
  }

  /** Over any run the receiver gets every message and tag, in order, and ends in the sender's state. */
  lemma {:induction false} RunRecovered(p: Primitives, s: Keys, es: seq<Event>)
    requires Fit(es)
    ensures Received(p, s, Sent(p, s, es)) == Pushed(es)
    ensures ReceiverAfter(p, s, Sent(p, s, es)) == SenderAfter(p, s, es)
    decreases |es|
  {
    hide Opened, Sealed, PullState, PushState, Rekeyed;
    if es != [] {
      var e, s' := es[0], SendState(p, s, es[0]);
      if e.Push? {
        PullAfterPush(p, s, e.m, e.ad, e.tag);
      }
      RunRecovered(p, s', es[1..]);
      assert Sent(p, s, es)[1..] == Sent(p, s', es[1..]);
    }
  }

  lemma {:induction false} SentPrefix(p: Primitives, s: Keys, es: seq<Event>, n: nat)
    requires n <= |es|
    ensures Sent(p, s, es)[..n] == Sent(p, s, es[..n])
    decreases n
  {
    hide SendWire, SendState;
    if n > 0 {
      SentPrefix(p, SendState(p, s, es[0]), es[1..], n - 1);
      assert es[..n][1..] == es[1..][..n - 1];
      var w, t := SendWire(p, s, es[0]), Sent(p, SendState(p, s, es[0]), es[1..]);
      assert ([w] + t)[..n] == [w] + t[..n - 1];
    }
  }

  /** After each prefix of a run the two states agree. */
  lemma StatesAgree(p: Primitives, s: Keys, es: seq<Event>, n: nat)
    requires Fit(es) && n <= |es|
    ensures ReceiverAfter(p, s, Sent(p, s, es)[..n]) == SenderAfter(p, s, es[..n])
  {
    hide ReceiverAfter, SenderAfter, Sent, Received;
    SentPrefix(p, s, es, n);
    RunRecovered(p, s, es[..n]);
  }

  lemma {:induction false} ReceiverConcat(p: Primitives, s: Keys, a: seq<Wire>, b: seq<Wire>)
    ensures ReceiverAfter(p, s, a + b) == ReceiverAfter(p, ReceiverAfter(p, s, a), b)
    decreases |a|
  {
    hide ReceiveState;
    if a == [] {
      assert a + b == b;
    } else {
      assert (a + b)[1..] == a[1..] + b;
      ReceiverConcat(p, ReceiveState(p, s, a[0]), a[1..], b);
    }
  }

  /** A rejected chunk anywhere in the stream leaves the rest of the run as it was. */
  lemma RejectedIgnored(p: Primitives, s: Keys, a: seq<Wire>, w: Wire, b: seq<Wire>)
    requires w.Chunk? && !Opened(p, ReceiverAfter(p, s, a), w.bytes, w.ad).Got?
    ensures ReceiverAfter(p, s, a + [w] + b) == ReceiverAfter(p, s, a + b)
  {
    hide Opened;
    var t := ReceiverAfter(p, s, a);
    ReceiverConcat(p, s, a + [w], b);
    ReceiverConcat(p, s, a, [w]);
    ReceiverConcat(p, s, a, b);
    assert [w][1..] == [];
    assert ReceiverAfter(p, t, [w]) == ReceiverAfter(p, ReceiveState(p, t, w), []);
  }

  /** No event of the run changes the key on purpose or by reaching the last counter value. */
  predicate SameEpoch(p: Primitives, s: Keys, es: seq<Event>)
    decreases |es|
  {
    es != [] ==> es[0].Push? && !Fresh(s, es[0].tag) && SameEpoch(p, SendState(p, s, es[0]), es[1..])
  }

  /** Between two key changes the counter counts the chunks: no (key, counter) pair comes back. */
  lemma {:induction false} EpochCounts(p: Primitives, s: Keys, es: seq<Event>)
    requires SameEpoch(p, s, es)
    ensures SenderAfter(p, s, es).k == s.k
    ensures Counter(SenderAfter(p, s, es)) == Counter(s) + |es|
    decreases |es|
  {
    hide Counter, Sealed, After, MacOf, TagBlock, XorStream;
    if es != [] {
      var e := es[0];
      AfterCounter(p, s, MacOf(p, s, e.ad, TagBlock(p, s, e.tag), XorStream(p, s, 2, e.m)), e.tag);
      EpochCounts(p, SendState(p, s, e), es[1..]);
    }
  }

  lemma {:induction false} CounterNeverZero(p: Primitives, s: Keys, es: seq<Event>)
    requires Counter(s) != 0
    ensures Counter(SenderAfter(p, s, es)) != 0
    decreases |es|
  {
    hide Counter, Sealed, After, MacOf, TagBlock, XorStream, Rekeyed;
    if es != [] {
      var e := es[0];
      if e.Push? {
        AfterCounter(p, s, MacOf(p, s, e.ad, TagBlock(p, s, e.tag), XorStream(p, s, 2, e.m)), e.tag);
      } else {
        RekeyedCounter(p, s);
      }
      CounterNeverZero(p, SendState(p, s, e), es[1..]);
    }
  }

  /** So it is on either side after every run from initialisation on. */
  lemma NeverZeroFromStart(p: Primitives, header: seq<byte>, key: Key, es: seq<Event>)
    requires |header| == HEADERBYTES
    ensures Counter(SenderAfter(p, Initial(p, header, key), es)) != 0
    ensures Fit(es) ==> Counter(ReceiverAfter(p, Initial(p, header, key), Sent(p, Initial(p, header, key), es))) != 0
  {
    hide Counter, Initial, SenderAfter, ReceiverAfter, Sent;
    InitialCounter(p, header, key);
    CounterNeverZero(p, Initial(p, header, key), es);
    if Fit(es) {
      RunRecovered(p, Initial(p, header, key), es);
    }
  }

  // ------------------------------------------------------- chunk and ratchet

  lemma TagBlockIs(p: Primitives, s: Keys, tag: byte, block: seq<byte>)
    requires |block| == 64
    requires forall i :: 0 <= i < 64 ==>
        block[i] == Xor(if i == 0 then tag else 0, p.keystream(s.k, s.nonce, 1)[i])
    ensures block == TagBlock(p, s, tag)
  {
    hide Xor;
    var t := [tag] + Zeros(63);
    forall i | 0 <= i < 64 ensures block[i] == XorStream(p, s, 1, t)[i] {
      assert t[i] == if i == 0 then tag else 0;
    }
  }

  lemma StreamIs(p: Primitives, s: Keys, m: seq<byte>)
    ensures forall i :: 0 <= i < |m| ==>
        XorStream(p, s, 2, m)[i] == Xor(m[i], p.keystream(s.k, s.nonce, Wrap32(2 + i / 64))[i % 64])
  {
    hide Xor;
  }

  /** The chunk byte by byte: the tag under block 1 of the keystream, the message under blocks 2 on. */
  lemma ChunkIs(p: Primitives, s: Keys, m: seq<byte>, ad: seq<byte>, tag: byte)
    ensures var out := Sealed(p, s, m, ad, tag);
            && |out| == 17 + |m| && out[0] == Xor(tag, p.keystream(s.k, s.nonce, 1)[0])
            && (forall i :: 0 <= i < |m| ==>
                  out[1 + i] == Xor(m[i], p.keystream(s.k, s.nonce, Wrap32(2 + i / 64))[i % 64]))
  {
    hide MacOf, Xor, StreamByte, XorStream;
    StreamIs(p, s, m);
    FirstOfBlock(p, s, tag);
    var out, c := Sealed(p, s, m, ad, tag), XorStream(p, s, 2, m);
    assert forall i :: 0 <= i < |m| ==> out[1 + i] == c[i];
  }

  lemma FirstOfBlock(p: Primitives, s: Keys, tag: byte)
    ensures TagBlock(p, s, tag)[0] == Xor(tag, p.keystream(s.k, s.nonce, 1)[0])
  {
    hide Xor;
  }

  /** The authenticator, under the first half of block 0: it covers the associated data, the tag and 63 zeros under
      block 1, and the ciphertext. */
  lemma AuthenticatorIs(p: Primitives, s: Keys, m: seq<byte>, ad: seq<byte>, tag: byte, block: seq<byte>)
    requires |block| == 64
    requires forall i :: 0 <= i < 64 ==>
        block[i] == Xor(if i == 0 then tag else 0, p.keystream(s.k, s.nonce, 1)[i])
    ensures var out := Sealed(p, s, m, ad, tag);
            out[1 + |m|..] == p.poly1305(p.keystream(s.k, s.nonce, 0)[..32], MacData(ad, block, out[1..1 + |m|]))
  {
    hide MacData, Xor, TagBlock, XorStream;
    TagBlockIs(p, s, tag, block);
    var out, c := Sealed(p, s, m, ad, tag), XorStream(p, s, 2, m);
    assert out[1..1 + |m|] == c;
  }

  /** What the receiver makes of any chunk: it is taken exactly when its end is the authenticator of the rest. */
  lemma AcceptedExactly(p: Primitives, s: Keys, input: seq<byte>, ad: seq<byte>, block: seq<byte>)
    requires |block| == 64 && 17 <= |input| <= 17 + MESSAGEBYTES_MAX
    requires forall i :: 0 <= i < 64 ==>
        block[i] == if i == 0 then input[0] else p.keystream(s.k, s.nonce, 1)[i]
    ensures var mlen := |input| - 17;
            var r := Opened(p, s, input, ad);
            && (r.Got? <==>
                  input[1 + mlen..] == p.poly1305(p.keystream(s.k, s.nonce, 0)[..32],
                                                  MacData(ad, block, input[1..1 + mlen])))
            && (r.Got? ==> r.tag == Xor(input[0], p.keystream(s.k, s.nonce, 1)[0]) && |r.m| == mlen)
  {
    hide MacData, Xor, SeenBlock, SeenTag, StreamByte;
    SeenBlockIs(p, s, input[0], block);
  }

  lemma SeenBlockIs(p: Primitives, s: Keys, first: byte, block: seq<byte>)
    requires |block| == 64
    requires forall i :: 0 <= i < 64 ==> block[i] == if i == 0 then first else p.keystream(s.k, s.nonce, 1)[i]
    ensures SeenBlock(p, s, first) == block && SeenTag(p, s, first) == Xor(first, p.keystream(s.k, s.nonce, 1)[0])
  {
    hide Xor;
    var t := [first] + Zeros(63);
    forall i | 0 <= i < 64 ensures SeenBlock(p, s, first)[i] == block[i] {
      assert t[i] == if i == 0 then first else 0;
      XorNone(p.keystream(s.k, s.nonce, 1)[i]);
    }
  }

  /** The eight bytes of the inner nonce with the first eight of an authenticator mixed in. */
  function Mixed(nonce: Nonce, mac: seq<byte>): (r: seq<byte>)
    requires |mac| == 16
    ensures |r| == 8 && forall i :: 0 <= i < 8 ==> r[i] == Xor(nonce[4 + i], mac[i])
  {
    seq(8, i requires 0 <= i < 8 => Xor(nonce[4 + i], mac[i]))
  }

  /** The state after a push, from the state before and the end of the chunk. Without a key change the key stays and the
      nonce is the next counter and the mixed inner nonce. With a key change, key and inner nonce are what block 0 of
      the keystream under that nonce makes of the old key and the mixed inner nonce, and the counter is 1. */
  lemma RatchetIs(p: Primitives, s: Keys, m: seq<byte>, ad: seq<byte>, tag: byte, counter: u32, inner: seq<byte>)
    requires counter == Wrap32(Counter(s) + 1)
    requires inner == Mixed(s.nonce, Sealed(p, s, m, ad, tag)[1 + |m|..])
    ensures var t := PushState(p, s, m, ad, tag);
            if tag / 2 % 2 == 0 && counter != 0
            then t.k == s.k && t.nonce == Little(counter, 4) + inner
            else var key := p.keystream(s.k, Little(counter, 4) + inner, 0);
                 && t.nonce[..4] == [1, 0, 0, 0]
                 && (forall i :: 0 <= i < 32 ==> t.k[i] == Xor(s.k[i], key[i]))
                 && (forall i :: 0 <= i < 8 ==> t.nonce[4 + i] == Xor(inner[i], key[32 + i]))
  {
    hide MacOf, TagBlock, Xor, Little, Counter;
    var out := Sealed(p, s, m, ad, tag);
    var mac := MacOf(p, s, ad, TagBlock(p, s, tag), XorStream(p, s, 2, m));
    assert out[1 + |m|..] == mac;
    assert XorAll(s.nonce[4..], mac) == inner;
    var moved := Keys(s.k, Little(counter, 4) + inner);
    CounterOf(counter, inner, s.k);
    assert PushState(p, s, m, ad, tag) == if Wraps(moved, tag) then Rekeyed(p, moved) else moved;
    assert moved.nonce[4..] == inner;
  }

  lemma MixedInjective(nonce: Nonce, mac: seq<byte>, mac': seq<byte>)
    requires |mac| == |mac'| == 16
    ensures Mixed(nonce, mac) == Mixed(nonce, mac') ==> mac[..8] == mac'[..8]
  {
    hide Xor;
    var a, a' := Mixed(nonce, mac), Mixed(nonce, mac');
    if a == a' {
      forall i | 0 <= i < 8 ensures mac[i] == mac'[i] {
        assert a[i] == a'[i];
        XorCancels(nonce[4 + i], mac[i], mac'[i]);
      }
    }
  }

  /** Two pushes from one state that keep the key and whose authenticators differ in their first eight bytes lead to
      different states. */
  lemma RatchetSeparates(p: Primitives, s: Keys, m: seq<byte>, ad: seq<byte>, tag: byte, m': seq<byte>, ad': seq<byte>,
                         tag': byte)
    requires tag / 2 % 2 == 0 && tag' / 2 % 2 == 0 && Counter(s) != 0xffff_ffff
    requires Sealed(p, s, m, ad, tag)[1 + |m|..9 + |m|] != Sealed(p, s, m', ad', tag')[1 + |m'|..9 + |m'|]
    ensures PushState(p, s, m, ad, tag) != PushState(p, s, m', ad', tag')
  {
    hide Sealed, PushState, Xor, Counter, Little, Mixed;
    CounterBound(s);
    var n := Wrap32(Counter(s) + 1);
    var c, c' := Sealed(p, s, m, ad, tag)[1 + |m|..], Sealed(p, s, m', ad', tag')[1 + |m'|..];
    var a, a' := Mixed(s.nonce, c), Mixed(s.nonce, c');
    assert n != 0;
    RatchetIs(p, s, m, ad, tag, n, a);
    RatchetIs(p, s, m', ad', tag', n, a');
    MixedInjective(s.nonce, c, c');
    assert c[..8] == Sealed(p, s, m, ad, tag)[1 + |m|..9 + |m|];
    assert c'[..8] == Sealed(p, s, m', ad', tag')[1 + |m'|..9 + |m'|];
    assert (Little(n, 4) + a)[4..] == a && (Little(n, 4) + a')[4..] == a';
  }

  lemma Swapped(x: byte, y: byte)
    ensures Xor(x, y) == Xor(y, x)
  {
    XorBitsCommute(x, y, 8);
  }

  lemma XorCancels(x: byte, y: byte, z: byte)
    requires Xor(x, y) == Xor(x, z)
    ensures y == z
  {
    Swapped(x, y);
    Swapped(x, z);
    XorTwice(y, x);
    XorTwice(z, x);
  }

  /** Both sides start from the key derived from the first 16 bytes of the header, and the other eight. */
  lemma InitialIs(p: Primitives, header: seq<byte>, key: Key)
    requires |header| == 24
    ensures var s := Initial(p, header, key);
            s.k == p.hchacha20(header[..16], key) && s.nonce == [1, 0, 0, 0] + header[16..24]
  {
    assert header[16..] == header[16..24];
  }

  // ------------------------------------------------ what is authenticated

  /** The authenticated bytes determine associated data, tag block and ciphertext. */
  lemma MacDataInjective(ad: seq<byte>, block: seq<byte>, c: seq<byte>, ad': seq<byte>, block': seq<byte>,
                         c': seq<byte>)
    requires |block| == |block'| == 64
    requires |ad| < U64 && 64 + |c| < U64 && |ad'| < U64 && 64 + |c'| < U64
    requires MacData(ad, block, c) == MacData(ad', block', c')
    ensures ad == ad' && block == block' && c == c'
  {
    hide MacData, Little, Value;
    var d := MacData(ad, block, c);
    MacDataParts(ad, block, c);
    MacDataParts(ad', block', c');
    Eight();
    ValueLittle(|ad|, 8);
    ValueLittle(|ad'|, 8);
    ValueLittle(64 + |c|, 8);
    ValueLittle(64 + |c'|, 8);
  }

  /** The layout of section 2.8 of RFC 8439, with tag block and ciphertext as its ciphertext. */
  function AlignedData(ad: seq<byte>, block: seq<byte>, c: seq<byte>): seq<byte> {
    ad + Zeros((16 - |ad| % 16) % 16) + block + c + Zeros((16 - |block + c| % 16) % 16)
    + (Little(Wrap64(|ad|), 8) + Little(Wrap64(64 + |c|), 8))
  }

  /** The code authenticates in that layout exactly when the message fills whole groups of eight bytes. */
  lemma AlignedExactly(ad: seq<byte>, block: seq<byte>, c: seq<byte>)
    requires |block| == 64
    ensures MacData(ad, block, c) == AlignedData(ad, block, c) <==> |c| % 8 == 0
  {
    hide Little;
    assert |block + c| == 64 + |c|;
    PaddingsAgree(|ad|, |c|);
  }

  lemma PadOf(a: nat)
    ensures (0x10 - a) % 16 == (16 - a % 16) % 16 == if a % 16 == 0 then 0 else 16 - a % 16
  {
    var q, r := a / 16, a % 16;
    if r == 0 {
      ModUnique(0x10 - a, 1 - q, 0, 16);
    } else {
      ModUnique(0x10 - a, -q, 16 - r, 16);
    }
  }

  lemma PaddingsAgree(a: nat, n: nat)
    ensures (0x10 - a) % 16 == (16 - a % 16) % 16
    ensures (0x10 - 64 + n) % 16 == (16 - (64 + n) % 16) % 16 <==> n % 8 == 0
  {
    PadOf(a);
    PadOf(64 + n);
    var q, r := n / 16, n % 16;
    ModUnique(0x10 - 64 + n, q - 3, r, 16);
    ModUnique(64 + n, q + 4, r, 16);
    ModUnique(n, 2 * q + r / 8, r % 8, 8);
  }

  /** A message of one byte is followed by one zero, where the standard has fifteen. */
  lemma OneByteUnaligned(ad: seq<byte>, block: seq<byte>, c: seq<byte>)
    requires |block| == 64 && |c| == 1
    ensures |AlignedData(ad, block, c)| == |MacData(ad, block, c)| + 14
  {
    hide Little;
    assert |block + c| == 65;
    PaddingsAgree(|ad|, |c|);
  }

  lemma Eight()
    ensures Pow256(8) == U64
  {
    Four();
    assert Pow256(8) == 256 * Pow256(7) && Pow256(7) == 256 * Pow256(6);
    assert Pow256(6) == 256 * Pow256(5) && Pow256(5) == 256 * Pow256(4);
  }

  function PadAd(n: nat): nat { (0x10 - n) % 16 }

  lemma MacDataParts(ad: seq<byte>, block: seq<byte>, c: seq<byte>)
    requires |block| == 64 && |ad| < U64 && 64 + |c| < U64
    ensures var d := MacData(ad, block, c);
            |d| >= 16 + |ad| + PadAd(|ad|) + 64 + |c|
            && d[|d| - 16..|d| - 8] == Little(|ad|, 8) && d[|d| - 8..] == Little(64 + |c|, 8)
            && d[..|ad|] == ad
            && d[|ad| + PadAd(|ad|)..|ad| + PadAd(|ad|) + 64] == block
            && d[|ad| + PadAd(|ad|) + 64..|ad| + PadAd(|ad|) + 64 + |c|] == c
  {
    hide Little;
    var x, y := Zeros(PadAd(|ad|)), Zeros((0x10 - 64 + |c|) % 16);
    assert Wrap64(|ad|) == |ad| && Wrap64(64 + |c|) == 64 + |c|;
    SixParts(ad, x, block, c, y, Little(|ad|, 8), Little(64 + |c|, 8));
  }

  lemma FirstPart(a: seq<byte>, x: seq<byte>, b: seq<byte>, c: seq<byte>, rest: seq<byte>)
    ensures (a + x + b + c + rest)[..|a|] == a
  {
  }

  lemma SecondPart(front: seq<byte>, part: seq<byte>, next: seq<byte>, rest: seq<byte>)
    ensures (front + part + next + rest)[|front|..|front| + |part|] == part
  {
  }

  lemma LastParts(front: seq<byte>, u: seq<byte>, v: seq<byte>)
    requires |u| == |v| == 8
    ensures var d := front + (u + v); d[|d| - 16..|d| - 8] == u && d[|d| - 8..] == v
  {
  }

  lemma SixParts(a: seq<byte>, x: seq<byte>, b: seq<byte>, c: seq<byte>, y: seq<byte>, u: seq<byte>, v: seq<byte>)
    requires |u| == |v| == 8
    ensures var d := a + x + b + c + y + (u + v);
            |d| == |a| + |x| + |b| + |c| + |y| + 16
            && d[|d| - 16..|d| - 8] == u && d[|d| - 8..] == v && d[..|a|] == a
            && d[|a| + |x|..|a| + |x| + |b|] == b && d[|a| + |x| + |b|..|a| + |x| + |b| + |c|] == c
  {
    var w := u + v;
    FirstPart(a, x, b, c, y + w);
    SecondPart(a + x, b, c, y + w);
    SecondPart(a + x + b, c, y, w);
    LastParts(a + x + b + c + y, u, v);
    assert a + x + b + c + (y + w) == a + x + b + c + y + w;
  }

  // ---------------------------------------------------------- the state

  function Initial(p: Primitives, header: seq<byte>, key: Key): Keys
    requires |header| == HEADERBYTES
  {
    Keys(p.hchacha20(header[..16], key), FirstCounter() + header[16..])
  }

  class State {
    const k: array<byte>
    const nonce: array<byte>

    ghost predicate Valid() { k.Length == 32 && nonce.Length == 12 && k != nonce }

    ghost function View(): Keys
      requires Valid()
      reads k, nonce
    {
      Keys(k[..], nonce[..])
    }

    /** `init_pull`, and `init_push` with the header it drew at random. */
    constructor (p: Primitives, header: seq<byte>, key: Key)
      requires |header| == HEADERBYTES
      ensures Valid() && fresh(k) && fresh(nonce)
      ensures View() == Initial(p, header, key)
    {
      var derived := p.hchacha20(header[..16], key);
      k := new byte[32](i requires 0 <= i < 32 => derived[i]);
      nonce := new byte[12](_ => Zero());
      new;
      ResetCounter();
      for i := 0 to 8
        invariant k[..] == derived
        invariant nonce[..4 + i] == FirstCounter() + header[16..16 + i]
      {
        nonce[4 + i] := header[16 + i];
      }
      assert nonce[..] == nonce[..12] && header[16..24] == header[16..];
    }

    method ResetCounter()
      requires Valid()
      modifies nonce
      ensures nonce[..] == FirstCounter() + old(nonce[4..])
    {
      nonce[0], nonce[1], nonce[2], nonce[3] := 1, 0, 0, 0;
    }

    /** `rekey`. */
    method RekeyNow(p: Primitives)
      requires Valid()
      modifies k, nonce
      ensures View() == Rekeyed(p, old(View()))
    {
      hide Xor, StreamByte;
      ghost var s := View();
      ghost var data := s.k + s.nonce[4..];
      var both := new byte[40];
      for i := 0 to 32
        invariant k[..] == s.k && nonce[..] == s.nonce
        invariant forall j :: 0 <= j < i ==> both[j] == data[j]
      {
        both[i] := k[i];
      }
      for i := 0 to 8
        invariant k[..] == s.k && nonce[..] == s.nonce
        invariant forall j :: 0 <= j < 32 + i ==> both[j] == data[j]
      {
        both[32 + i] := nonce[4 + i];
      }
      assert both[..] == data;
      var r := XorStream(p, Keys(k[..], nonce[..]), 0, both[..]);
      for i := 0 to 32
        invariant nonce[..] == s.nonce
        invariant forall j :: 0 <= j < i ==> k[j] == r[j]
      {
        k[i] := r[i];
      }
      assert k[..] == r[..32];
      for i := 0 to 8
        invariant k[..] == r[..32]
        invariant forall j :: 4 <= j < 4 + i ==> nonce[j] == r[28 + j]
      {
        nonce[4 + i] := r[32 + i];
      }
      assert nonce[4..] == r[32..];
      ResetCounter();
    }

    /** The common end of push and pull. */
    method Advance(p: Primitives, mac: Mac, tag: byte)
      requires Valid()
      modifies k, nonce
      ensures View() == After(p, old(View()), mac, tag)
    {
      hide Xor, Rekeyed, Value, Little;
      ghost var s := View();
      for i := 0 to 8
        invariant k[..] == s.k && nonce[..4] == s.nonce[..4]
        invariant forall j :: 4 <= j < 12 ==> nonce[j] == if j < 4 + i then Xor(s.nonce[j], mac[j - 4]) else s.nonce[j]
      {
        nonce[4 + i] := Xor(nonce[4 + i], mac[i]);
      }
      assert nonce[4..] == XorAll(s.nonce[4..], mac);
      Limbs.Increment(nonce, 4);
      Four();
      LittleValue(nonce[..4]);
      assert nonce[..] == nonce[..4] + nonce[4..];
      var zero := Limbs.IsZero(nonce[..4]);
      if tag / 2 % 2 == 1 || zero {
        RekeyNow(p);
      }
    }

    /** `push`: the chunk, or an abort when the message is too long. */
    method PushChunk(p: Primitives, m: seq<byte>, ad: seq<byte>, tag: byte) returns (aborted: bool, out: seq<byte>)
      requires Valid()
      modifies k, nonce
      ensures aborted <==> |m| > MESSAGEBYTES_MAX
      ensures aborted ==> View() == old(View())
      ensures !aborted ==> out == Sealed(p, old(View()), m, ad, tag)
      ensures !aborted ==> View() == PushState(p, old(View()), m, ad, tag)
    {
      hide MacOf, TagBlock, XorStream, After;
      if |m| > MESSAGEBYTES_MAX {
        return true, [];
      }
      var s := Keys(k[..], nonce[..]);
      var block := TagBlock(p, s, tag);
      var c := XorStream(p, s, 2, m);
      var mac := MacOf(p, s, ad, block, c);
      Advance(p, mac, tag);
      return false, [block[0]] + c + mac;
    }

    /** `pull`: a rejected chunk changes nothing. */
    method PullChunk(p: Primitives, input: seq<byte>, ad: seq<byte>) returns (r: Pulled)
      requires Valid()
      modifies k, nonce
      ensures r == Opened(p, old(View()), input, ad)
      ensures View() == PullState(p, old(View()), input, ad)
      ensures !r.Got? ==> View() == old(View())
    {
      hide MacOf, XorStream, After;
      if |input| < ABYTES {
        return Failed;
      }
      var mlen := |input| - ABYTES;
      if mlen > MESSAGEBYTES_MAX {
        return Aborted;
      }
      var s := Keys(k[..], nonce[..]);
      var block := XorStream(p, s, 1, [input[0]] + Zeros(63));
      var tag := block[0];
      block := block[0 := input[0]];
      var c := input[1..1 + mlen];
      var mac := MacOf(p, s, ad, block, c);
      var differ := Limbs.Memcmp(mac, input[1 + mlen..]);
      if differ != 0 {
        return Failed;
      }
      var m := XorStream(p, s, 2, c);
      Advance(p, mac, tag);
      return Got(m, tag);
    }
  }
}
