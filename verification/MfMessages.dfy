/**
 Message envelopes: a fixed 224-byte header followed by the payload, sealed in place, then
 signed. The key pairs, the authenticated box, the nonce hash and the signature are
 parameters with the laws of those primitives.
 */
module MfMessages {
  import opened Machine
  import opened Bytes

  // ---------------------------------------------------------- sealed boxes

  type Key = s: seq<byte> | |s| == 32 witness Zeros(32)
  type Signature = s: seq<byte> | |s| == 64 witness Zeros(64)

  /** `crypto_box` with its key pairs, the nonce derived from two public keys, and detached signatures. */
  datatype Crypto = Crypto(
    boxPublic: Key -> Key,
    box: (seq<byte>, seq<byte>, Key, Key) -> seq<byte>,
    boxOpen: (seq<byte>, seq<byte>, Key, Key) -> Option<seq<byte>>,
    nonce: (Key, Key) -> seq<byte>,
    signPublic: seq<byte> -> Key,
    sign: (seq<byte>, seq<byte>) -> Signature,
    verify: (Key, Signature, seq<byte>) -> bool)

  /** A box opens with the mirrored keys; lengths differ by the 16-byte tag; signatures verify. */
  ghost predicate Lawful(c: Crypto) {
    && (forall m, n, pk, sk :: |c.box(m, n, pk, sk)| == |m| + 16)
    && (forall m, n, a, b :: c.boxOpen(c.box(m, n, c.boxPublic(a), b), n, c.boxPublic(b), a) == Some(m))
    && (forall x, n, pk, sk :: c.boxOpen(x, n, pk, sk).Some? ==> |c.boxOpen(x, n, pk, sk).value| + 16 == |x|)
    && (forall sk, m :: c.verify(c.signPublic(sk), c.sign(sk, m), m))
  }

  function SameKey(k: Key): Key { k }
  function FirstKey(k: seq<byte>): Key { Zeros(32) }
  function Tagged(m: seq<byte>, n: seq<byte>, pk: Key, sk: Key): seq<byte> { Zeros(16) + m }
  function Untagged(x: seq<byte>, n: seq<byte>, pk: Key, sk: Key): Option<seq<byte>> {
    if |x| < 16 then None else Some(x[16..])
  }
  function NoNonce(a: Key, b: Key): seq<byte> { [] }
  function Unsigned64(sk: seq<byte>, m: seq<byte>): Signature { Zeros(64) }
  function AlwaysTrue(pk: Key, s: Signature, m: seq<byte>): bool { true }

  /** A box that hides nothing. */
  function Plainly(): Crypto { Crypto(SameKey, Tagged, Untagged, NoNonce, FirstKey, Unsigned64, AlwaysTrue) }

  lemma PlainlyIsLawful()
    ensures Lawful(Plainly())
  {
    var c := Plainly();
    forall m, n, pk, sk ensures |c.box(m, n, pk, sk)| == |m| + 16 {
    }
    forall m, n, a, b ensures c.boxOpen(c.box(m, n, c.boxPublic(a), b), n, c.boxPublic(b), a) == Some(m) {
      assert (Zeros(16) + m)[16..] == m;
    }
    assert Lawful(c);
  }

  /** The laws can be met: by a box that hides nothing, for one. */
  lemma LawsAreConsistent()
    ensures exists c: Crypto :: Lawful(c)
  {
    PlainlyIsLawful();
  }

  const SEALBYTES := 48

  /** `crypto_box_seal` with the ephemeral secret key `esk`. */
  function Seal(c: Crypto, m: seq<byte>, pk: Key, esk: Key): seq<byte> {
    var epk := c.boxPublic(esk);
    epk + c.box(m, c.nonce(epk, pk), pk, esk)
  }

  /** `crypto_box_seal_open`. */
  function SealOpen(c: Crypto, s: seq<byte>, pk: Key, sk: Key): Option<seq<byte>> {
    if |s| < SEALBYTES then None
    else c.boxOpen(s[32..], c.nonce(s[..32], pk), s[..32], sk)
  }

  /** The recipient opens what was sealed to its public key. */
  lemma SealOpens(c: Crypto, m: seq<byte>, sk: Key, esk: Key)
    requires Lawful(c)
    ensures |Seal(c, m, c.boxPublic(sk), esk)| == |m| + SEALBYTES
    ensures SealOpen(c, Seal(c, m, c.boxPublic(sk), esk), c.boxPublic(sk), sk) == Some(m)
  {
    var pk, epk := c.boxPublic(sk), c.boxPublic(esk);
    var s := Seal(c, m, pk, esk);
    assert s[..32] == epk && s[32..] == c.box(m, c.nonce(epk, pk), pk, esk);
  }

  /** A sealed box: the ephemeral public key, then the box under the nonce of both public keys. */
  lemma SealIs(c: Crypto, m: seq<byte>, pk: Key, esk: Key)
    ensures Seal(c, m, pk, esk)[..32] == c.boxPublic(esk)
    ensures Seal(c, m, pk, esk)[32..] == c.box(m, c.nonce(c.boxPublic(esk), pk), pk, esk)
  {
  }

  // ------------------------------------------------------------ the layout

  const HEADER := 224
  const FLAGS := 6
  const SIGNATURE := 8
  const HEADER_ENC := 72
  const SEALED_HEADER := 120
  const TYPE := 120
  const DATA_SIZE := 124
  const COUNTER := 128
  const CONTEXT := 136
  const SOURCE := 144
  const DEST := 160
  const DATA_ENC := 176

  const VERSION := 1
  const SIGNED := 1
  const HEADER_ENCRYPTED := 2
  const DATA_ENCRYPTED := 4

  function Put(s: seq<byte>, at: nat, data: seq<byte>): (r: seq<byte>)
    requires at + |data| <= |s|
    ensures |r| == |s| && r[..at] == s[..at] && r[at..at + |data|] == data && r[at + |data|..] == s[at + |data|..]
  {
    s[..at] + data + s[at + |data|..]
  }

  /** Bytes that a `Put` elsewhere leaves alone. */
  lemma PutElsewhere(s: seq<byte>, at: nat, data: seq<byte>, lo: nat, hi: nat)
    requires at + |data| <= |s| && lo <= hi <= |s| && (hi <= at || at + |data| <= lo)
    ensures Put(s, at, data)[lo..hi] == s[lo..hi]
  {
  }

  lemma PutIs(s: seq<byte>, at: nat, data: seq<byte>)
    requires at + |data| <= |s|
    ensures forall k :: 0 <= k < |s| ==> Put(s, at, data)[k] == if at <= k < at + |data| then data[k - at] else s[k]
  {
  }

  /** The header fields in their order and sizes, and the flag bits. */
  lemma LayoutIs()
    ensures FLAGS == 4 + 2 && SIGNATURE == FLAGS + 2 && HEADER_ENC == SIGNATURE + 64
    ensures SEALED_HEADER == HEADER_ENC + 48 && TYPE == SEALED_HEADER && DATA_SIZE == TYPE + 4
    ensures COUNTER == DATA_SIZE + 4 && CONTEXT == COUNTER + 8 && SOURCE == CONTEXT + 8
    ensures DEST == SOURCE + 16 && DATA_ENC == DEST + 16 && HEADER == DATA_ENC + 48 == 224
    ensures SIGNED == 1 && HEADER_ENCRYPTED == 2 && DATA_ENCRYPTED == 4
  {
  }

  function Field(s: seq<byte>, at: nat, n: nat): nat
    requires at + n <= |s|
  {
    Value(s[at..at + n])
  }

  function FlagsOf(s: seq<byte>): nat
    requires |s| >= HEADER
  {
    Field(s, FLAGS, 2)
  }

  /** The flag words in use. */
  predicate Flag(b: nat) { b == SIGNED || b == HEADER_ENCRYPTED || b == DATA_ENCRYPTED }

  predicate HasBit(f: nat, b: nat)
    requires Flag(b)
  {
    f / b % 2 == 1
  }

  function SetBit(f: nat, b: nat): nat
    requires Flag(b)
  {
    if HasBit(f, b) then f else f + b
  }

  function ClearBit(f: nat, b: nat): nat
    requires Flag(b)
  {
    if HasBit(f, b) then f - b else f
  }

  function WithFlags(s: seq<byte>, f: nat): (r: seq<byte>)
    requires |s| >= HEADER
    ensures |r| == |s|
  {
    Put(s, FLAGS, Little(f, 2))
  }

  lemma FlagsRead(s: seq<byte>, f: nat)
    requires |s| >= HEADER && f < 0x1_0000
    ensures FlagsOf(WithFlags(s, f)) == f
  {
    assert Pow256(2) == 0x1_0000;
    ValueLittle(f, 2);
  }

  // ------------------------------------------- operations on the whole buffer

  datatype Parties = Parties(source: Option<seq<byte>>, dest: Option<seq<byte>>)

  predicate GuidsFit(p: Parties) {
    (p.source.Some? ==> |p.source.value| == 16) && (p.dest.Some? ==> |p.dest.value| == 16)
  }

  function PutGuid(s: seq<byte>, at: nat, g: Option<seq<byte>>): (r: seq<byte>)
    requires at + 16 <= |s| && (g.Some? ==> |g.value| == 16)
    ensures |r| == |s|
  {
    if g.Some? then Put(s, at, g.value) else s
  }

  /** The buffer `MFMessage_Alloc` prepares. */
  function Allocated(typ: u32, p: Parties, data: seq<byte>): (s: seq<byte>)
    requires GuidsFit(p) && HEADER + |data| < U32
    ensures |s| == HEADER + |data|
  {
    var s0 := Put(Zeros(HEADER + |data|), 4, Little(VERSION, 2));
    var s1 := Put(s0, 0, Little(HEADER + |data|, 4));
    var s2 := Put(Put(s1, TYPE, Little(typ, 4)), DATA_SIZE, Little(|data|, 4));
    PutGuid(PutGuid(Put(s2, HEADER, data), SOURCE, p.source), DEST, p.dest)
  }

  /** A sealing operation: the region from `at` on is replaced, one flag is set, the signed flag is dropped. */
  function SealedAt(c: Crypto, s: seq<byte>, at: nat, end: nat, flag: nat, pk: Key, esk: Key): (r: seq<byte>)
    requires Lawful(c) && |s| >= HEADER && HEADER_ENC <= at && at + SEALBYTES <= end <= |s| && Flag(flag)
    ensures |r| == |s|
  {
    var t := Put(s, at, Seal(c, s[at + SEALBYTES..end], pk, esk));
    WithFlags(t, ClearBit(SetBit(FlagsOf(t), flag), SIGNED))
  }

  /** An opening operation: the plaintext goes where the ciphertext was, both flags are dropped. */
  function OpenedAt(c: Crypto, s: seq<byte>, at: nat, end: nat, flag: nat, pk: Key, sk: Key): (r: Option<seq<byte>>)
    requires Lawful(c) && |s| >= HEADER && HEADER_ENC <= at && at + SEALBYTES <= end <= |s| && Flag(flag)
    ensures r.Some? ==> |r.value| == |s|
  {
    var m := SealOpen(c, s[at..end], pk, sk);
    if m.None? then None
    else
      var t := Put(s, at + SEALBYTES, m.value);
      Some(WithFlags(t, ClearBit(ClearBit(FlagsOf(t), flag), SIGNED)))
  }

  function DataSize(s: seq<byte>): nat
    requires |s| >= HEADER
  {
    Field(s, DATA_SIZE, 4)
  }

  function DataEncrypted(c: Crypto, s: seq<byte>, pk: Key, esk: Key): (r: seq<byte>)
    requires Lawful(c) && |s| >= HEADER
    ensures |r| == |s|
  {
    SealedAt(c, s, DATA_ENC, |s|, DATA_ENCRYPTED, pk, esk)
  }

  /** The same on a message with slack: the random bytes meant for the slack end where the payload ends. */
  function SlackEncrypted(c: Crypto, s: seq<byte>, pk: Key, esk: Key, random: seq<byte>): (r: seq<byte>)
    requires Lawful(c) && |s| >= HEADER && HEADER + DataSize(s) + |random| == |s|
    requires |random| <= HEADER + DataSize(s)
    ensures |r| == |s|
  {
    var end := HEADER + DataSize(s);
    var t := Put(Put(s, DATA_ENC, Seal(c, s[HEADER..end], pk, esk)), end - |random|, random);
    WithFlags(t, ClearBit(SetBit(FlagsOf(t), DATA_ENCRYPTED), SIGNED))
  }

  function HeaderEncrypted(c: Crypto, s: seq<byte>, pk: Key, esk: Key): (r: seq<byte>)
    requires Lawful(c) && |s| >= HEADER
    ensures |r| == |s|
  {
    SealedAt(c, s, HEADER_ENC, HEADER, HEADER_ENCRYPTED, pk, esk)
  }

  function Unsigned(s: seq<byte>): (r: seq<byte>)
    requires |s| >= HEADER
    ensures |r| == |s|
  {
    Put(s, SIGNATURE, Zeros(64))
  }

  function Signed(c: Crypto, s: seq<byte>, sk: seq<byte>): (r: seq<byte>)
    requires |s| >= HEADER
    ensures |r| == |s|
  {
    var t := Unsigned(WithFlags(s, SetBit(FlagsOf(s), SIGNED)));
    Put(t, SIGNATURE, c.sign(sk, t))
  }

  /** The signature covers the whole message with the signed flag set and 64 zeros in its own place. */
  lemma SignatureCovers(c: Crypto, s: seq<byte>, sk: seq<byte>, w: seq<byte>)
    requires |w| == |s| >= 224 && w[..6] == s[..6] && w[8..72] == Zeros(64) && w[72..] == s[72..]
    requires w[6..8] == Little(if FlagsOf(s) % 2 == 1 then FlagsOf(s) else FlagsOf(s) + 1, 2)
    ensures Signed(c, s, sk)[8..72] == c.sign(sk, w)
    ensures Signed(c, s, sk)[..8] == w[..8] && Signed(c, s, sk)[72..] == s[72..]
  {
    hide Little, Put, Value;
    var f := Little(SetBit(FlagsOf(s), SIGNED), 2);
    var v := Put(s, FLAGS, f);
    var t := Put(v, SIGNATURE, Zeros(64));
    PutIs(s, FLAGS, f);
    PutIs(v, SIGNATURE, Zeros(64));
    PutIs(t, SIGNATURE, c.sign(sk, t));
    SameFields(s, w, t);
  }

  lemma SameFields(s: seq<byte>, w: seq<byte>, t: seq<byte>)
    requires |w| == |s| == |t| >= 72 && w[..6] == s[..6] == t[..6] && w[72..] == s[72..] == t[72..]
    requires w[6..8] == t[6..8] && w[8..72] == t[8..72]
    ensures w == t
  {
    assert w == w[..6] + w[6..8] + w[8..72] + w[72..];
    assert t == t[..6] + t[6..8] + t[8..72] + t[72..];
  }

  function Verified(c: Crypto, s: seq<byte>, pk: Key): bool
    requires |s| >= HEADER
  {
    c.verify(pk, s[SIGNATURE..SIGNATURE + 64], Unsigned(s))
  }

  /** Verification is of the signature field over the message with zeros in that field. */
  lemma VerificationCovers(c: Crypto, s: seq<byte>, pk: Key, w: seq<byte>)
    requires |w| == |s| >= 224 && w[..8] == s[..8] && w[8..72] == Zeros(64) && w[72..] == s[72..]
    ensures Verified(c, s, pk) == c.verify(pk, s[8..72], w)
  {
    hide Put;
    var t := Put(s, SIGNATURE, Zeros(64));
    PutIs(s, SIGNATURE, Zeros(64));
    assert t[..6] == w[..6] && t[6..8] == w[6..8];
    SameFields(w, w, t);
  }

  function HeaderDecrypted(c: Crypto, s: seq<byte>, pk: Key, sk: Key): Option<seq<byte>>
    requires Lawful(c) && |s| >= HEADER
  {
    OpenedAt(c, s, HEADER_ENC, HEADER, HEADER_ENCRYPTED, pk, sk)
  }

  function DataDecrypted(c: Crypto, s: seq<byte>, pk: Key, sk: Key): Option<seq<byte>>
    requires Lawful(c) && |s| >= HEADER && HEADER + DataSize(s) <= |s|
  {
    OpenedAt(c, s, DATA_ENC, HEADER + DataSize(s), DATA_ENCRYPTED, pk, sk)
  }

  // ------------------------------------------------------------- theorems

  /** What the two seals put where: the second half of the header into bytes 72 to 224, the payload from byte 176 on;
      bytes 6 and 7 are the flags. */
  lemma SealedRegions(c: Crypto, s: seq<byte>, pk: Key, esk: Key)
    requires Lawful(c) && |s| >= 224
    ensures var r := HeaderEncrypted(c, s, pk, esk);
            && r[72..224] == Seal(c, s[120..224], pk, esk)
            && r[..6] == s[..6] && r[8..72] == s[8..72] && r[224..] == s[224..]
    ensures var r := DataEncrypted(c, s, pk, esk);
            r[176..] == Seal(c, s[224..], pk, esk) && r[..6] == s[..6] && r[8..176] == s[8..176]
  {
    hide SetBit, ClearBit, Little, Value, Put, Seal;
    SealSize(c, s[120..224], pk, esk);
    SealSize(c, s[224..], pk, esk);
    assert s[224..|s|] == s[224..];
    Resealed(c, s, 72, 224, HEADER_ENCRYPTED, pk, esk);
    Resealed(c, s, 176, |s|, DATA_ENCRYPTED, pk, esk);
  }

  lemma Resealed(c: Crypto, s: seq<byte>, at: nat, end: nat, flag: nat, pk: Key, esk: Key)
    requires Lawful(c) && |s| >= HEADER && HEADER_ENC <= at && at + SEALBYTES <= end <= |s| && Flag(flag)
    ensures var r := SealedAt(c, s, at, end, flag, pk, esk);
            && r[at..end] == Seal(c, s[at + SEALBYTES..end], pk, esk)
            && r[..6] == s[..6] && r[8..at] == s[8..at] && r[end..] == s[end..]
  {
    hide SetBit, ClearBit, Little, Put, Seal;
    var x := Seal(c, s[at + SEALBYTES..end], pk, esk);
    SealSize(c, s[at + SEALBYTES..end], pk, esk);
    var t := Put(s, at, x);
    var f := Little(ClearBit(SetBit(FlagsOf(t), flag), SIGNED), 2);
    PutIs(s, at, x);
    PutIs(t, FLAGS, f);
  }

  /** Sealing touches its own region and the two flag bytes. */
  lemma SealedFrame(c: Crypto, s: seq<byte>, at: nat, end: nat, flag: nat, pk: Key, esk: Key, lo: nat, hi: nat)
    requires Lawful(c) && |s| >= HEADER && HEADER_ENC <= at && at + SEALBYTES <= end <= |s| && Flag(flag)
    requires lo <= hi <= |s| && (hi <= FLAGS || FLAGS + 2 <= lo) && (hi <= at || end <= lo)
    ensures SealedAt(c, s, at, end, flag, pk, esk)[lo..hi] == s[lo..hi]
  {
    hide SetBit, ClearBit, Little, Value, Put;
    var sealed := Seal(c, s[at + SEALBYTES..end], pk, esk);
    var t := Put(s, at, sealed);
    PutElsewhere(s, at, sealed, lo, hi);
    PutElsewhere(t, FLAGS, Little(ClearBit(SetBit(FlagsOf(t), flag), SIGNED), 2), lo, hi);
  }

  /** Opening what was sealed restores the plaintext there, whatever changed in between outside the sealed region. */
  lemma OpenAfterSeal(c: Crypto, s: seq<byte>, t: seq<byte>, at: nat, end: nat, flag: nat, sk: Key, esk: Key)
    requires Lawful(c) && |s| == |t| >= HEADER && HEADER_ENC <= at && at + SEALBYTES <= end <= |s| && Flag(flag)
    requires t[at..end] == SealedAt(c, s, at, end, flag, c.boxPublic(sk), esk)[at..end]
    ensures var r := OpenedAt(c, t, at, end, flag, c.boxPublic(sk), sk);
            && r.Some? && r.value[at + SEALBYTES..end] == s[at + SEALBYTES..end]
            && FlagsOf(r.value) == ClearBit(ClearBit(FlagsOf(t), flag), SIGNED)
            && (forall lo, hi :: 0 <= lo <= hi <= |t| && (hi <= FLAGS || FLAGS + 2 <= lo)
                                 && (hi <= at + SEALBYTES || end <= lo) ==>
                r.value[lo..hi] == t[lo..hi])
  {
    hide SetBit, ClearBit, Little, Value, Put, Seal, SealOpen;
    var m, pk := s[at + SEALBYTES..end], c.boxPublic(sk);
    SealOpens(c, m, sk, esk);
    var u := Put(s, at, Seal(c, m, pk, esk));
    PutElsewhere(u, FLAGS, Little(ClearBit(SetBit(FlagsOf(u), flag), SIGNED), 2), at, end);
    assert t[at..end] == Seal(c, m, pk, esk);
    var v := Put(t, at + SEALBYTES, m);
    var f := ClearBit(ClearBit(FlagsOf(v), flag), SIGNED);
    PutElsewhere(t, at + SEALBYTES, m, FLAGS, FLAGS + 2);
    FlagsSmall(t);
    ClearShrinks(FlagsOf(t), flag);
    ClearShrinks(ClearBit(FlagsOf(t), flag), SIGNED);
    FlagsRead(v, f);
    PutElsewhere(v, FLAGS, Little(f, 2), at + SEALBYTES, end);
    forall lo, hi | 0 <= lo <= hi <= |t| && (hi <= FLAGS || FLAGS + 2 <= lo) && (hi <= at + SEALBYTES || end <= lo)
      ensures Put(v, FLAGS, Little(f, 2))[lo..hi] == t[lo..hi]
    {
      PutElsewhere(t, at + SEALBYTES, m, lo, hi);
      PutElsewhere(v, FLAGS, Little(f, 2), lo, hi);
    }
  }

  /** The sealed payload as it lies in the buffer after encryption. */
  predicate Intact(c: Crypto, s: seq<byte>, pk: Key, esk: Key, random: seq<byte>)
    requires Lawful(c) && |s| >= HEADER && HEADER + DataSize(s) + |random| == |s|
    requires |random| <= HEADER + DataSize(s)
  {
    var end := HEADER + DataSize(s);
    SlackEncrypted(c, s, pk, esk, random)[DATA_ENC..end] == Seal(c, s[HEADER..end], pk, esk)
  }

  /** For a message with `k` bytes of slack the sealed payload survives every draw of random bytes exactly when there
      is no slack. */
  lemma SlackSpoils(c: Crypto, s: seq<byte>, pk: Key, esk: Key, k: nat)
    requires Lawful(c) && |s| >= HEADER && HEADER + DataSize(s) + k == |s| && k <= HEADER + DataSize(s)
    ensures k == 0 <==> forall random: seq<byte> :: |random| == k ==> Intact(c, s, pk, esk, random)
  {
    hide Intact, DataSize, Seal;
    if k == 0 {
      forall random: seq<byte> | |random| == k ensures Intact(c, s, pk, esk, random) {
        NoSlack(c, s, pk, esk);
      }
    } else {
      var end := HEADER + DataSize(s);
      SealSize(c, s[HEADER..end], pk, esk);
      var last := Seal(c, s[HEADER..end], pk, esk)[DataSize(s) + SEALBYTES - 1];
      var random := Zeros(k - 1) + [Other(last)];
      LastByte(c, s, pk, esk, random);
      assert |random| == k && !Intact(c, s, pk, esk, random);
    }
  }

  function Other(b: byte): byte { if b == 0 then 1 else 0 }

  /** The last byte of the sealed payload becomes the last random byte. */
  lemma LastByte(c: Crypto, s: seq<byte>, pk: Key, esk: Key, random: seq<byte>)
    requires Lawful(c) && |s| >= HEADER && HEADER + DataSize(s) + |random| == |s|
    requires 0 < |random| <= HEADER + DataSize(s)
    ensures var end := HEADER + DataSize(s);
            var r, sealed := SlackEncrypted(c, s, pk, esk, random), Seal(c, s[HEADER..end], pk, esk);
            && r[end - 1] == random[|random| - 1] && |sealed| == end - DATA_ENC
            && (sealed[|sealed| - 1] != random[|random| - 1] ==> !Intact(c, s, pk, esk, random))
  {
    hide SetBit, ClearBit, Little, Put, Seal, DataSize, FlagsOf;
    var end := HEADER + DataSize(s);
    var sealed := Seal(c, s[HEADER..end], pk, esk);
    SealSize(c, s[HEADER..end], pk, esk);
    var u := Put(s, DATA_ENC, sealed);
    var t := Put(u, end - |random|, random);
    var f := Little(ClearBit(SetBit(FlagsOf(t), DATA_ENCRYPTED), SIGNED), 2);
    PutElsewhere(t, FLAGS, f, end - 1, end);
    assert t[end - 1] == t[end - |random|..end][|random| - 1];
    assert Put(t, FLAGS, f)[end - 1] == Put(t, FLAGS, f)[end - 1..end][0] == t[end - 1..end][0];
    assert Put(t, FLAGS, f)[DATA_ENC..end][|sealed| - 1] == Put(t, FLAGS, f)[end - 1];
  }

  /** Without slack encryption is the sealing of the whole rest. */
  lemma NoSlack(c: Crypto, s: seq<byte>, pk: Key, esk: Key)
    requires Lawful(c) && |s| >= HEADER && HEADER + DataSize(s) == |s|
    ensures SlackEncrypted(c, s, pk, esk, []) == DataEncrypted(c, s, pk, esk) && Intact(c, s, pk, esk, [])
  {
    hide SetBit, ClearBit, Little, Put, Seal, DataSize, FlagsOf;
    var sealed := Seal(c, s[HEADER..], pk, esk);
    SealSize(c, s[HEADER..], pk, esk);
    assert s[HEADER..|s|] == s[HEADER..];
    var u := Put(s, DATA_ENC, sealed);
    PutNothing(u, |s|);
    PutElsewhere(u, FLAGS, Little(ClearBit(SetBit(FlagsOf(u), DATA_ENCRYPTED), SIGNED), 2), DATA_ENC, |s|);
  }

  /** Slack itself is never filled. */
  lemma SlackStays(c: Crypto, s: seq<byte>, pk: Key, esk: Key, random: seq<byte>)
    requires Lawful(c) && |s| >= HEADER && HEADER + DataSize(s) + |random| == |s|
    requires |random| <= HEADER + DataSize(s)
    ensures var end := HEADER + DataSize(s);
            SlackEncrypted(c, s, pk, esk, random)[end..] == s[end..]
  {
    hide SetBit, ClearBit, Little, Put, Seal, DataSize, FlagsOf;
    var end := HEADER + DataSize(s);
    var sealed := Seal(c, s[HEADER..end], pk, esk);
    SealSize(c, s[HEADER..end], pk, esk);
    var u := Put(s, DATA_ENC, sealed);
    var t := Put(u, end - |random|, random);
    var f := Little(ClearBit(SetBit(FlagsOf(t), DATA_ENCRYPTED), SIGNED), 2);
    PutElsewhere(t, FLAGS, f, end, |s|);
    PutElsewhere(u, end - |random|, random, end, |s|);
    PutElsewhere(s, DATA_ENC, sealed, end, |s|);
    assert s[end..] == s[end..|s|] && Put(t, FLAGS, f)[end..] == Put(t, FLAGS, f)[end..|s|];
  }

  /** A message with one byte of payload and one of slack. */
  function OneAndOne(): seq<byte> { Put(Zeros(HEADER + 2), DATA_SIZE, [1, 0, 0, 0]) }

  lemma OneAndOneSize()
    ensures |OneAndOne()| == HEADER + 2 && DataSize(OneAndOne()) == 1 && OneAndOne()[HEADER] == 0
  {
    hide Put;
    var s := OneAndOne();
    assert s[DATA_SIZE..DATA_SIZE + 4] == [1, 0, 0, 0];
    assert s[DATA_SIZE + 4..][HEADER - DATA_SIZE - 4] == Zeros(HEADER + 2)[DATA_SIZE + 4..][HEADER - DATA_SIZE - 4];
    ValueOne();
  }

  lemma ValueOne()
    ensures Value([1, 0, 0, 0]) == 1
  {
    var a: seq<byte>, b: seq<byte>, d: seq<byte>, e: seq<byte> := [1, 0, 0, 0], [0, 0, 0], [0, 0], [0];
    assert a[1..] == b && b[1..] == d && d[1..] == e && e[1..] == [];
  }

  /** With a box that hides nothing: the payload byte 0 is sent, a 7 is drawn, and the receiver reads 7. */
  lemma OneByteLost(pk: Key, sk: Key, esk: Key)
    ensures |OneAndOne()| == HEADER + 2 && DataSize(OneAndOne()) == 1 && OneAndOne()[HEADER] == 0
    ensures Lawful(Plainly()) && !Intact(Plainly(), OneAndOne(), pk, esk, [7])
    ensures var r := SlackEncrypted(Plainly(), OneAndOne(), pk, esk, [7]);
            && DataSize(r) == 1 && DataDecrypted(Plainly(), r, pk, sk).Some?
            && DataDecrypted(Plainly(), r, pk, sk).value[HEADER] == 7
  {
    hide Intact, SlackEncrypted, OneAndOne, DataSize, DataDecrypted;
    var s := OneAndOne();
    OneAndOneSize();
    PlainlyIsLawful();
    LastByte(Plainly(), s, pk, esk, [7]);
    assert Seal(Plainly(), s[HEADER..HEADER + 1], pk, esk) == esk + (Zeros(16) + s[HEADER..HEADER + 1]);
    SizeKept(Plainly(), s, pk, esk, [7]);
    ReadPlainly(SlackEncrypted(Plainly(), s, pk, esk, [7]), pk, sk);
  }

  /** Small draws leave the size field alone. */
  lemma SizeKept(c: Crypto, s: seq<byte>, pk: Key, esk: Key, random: seq<byte>)
    requires Lawful(c) && |s| >= HEADER && HEADER + DataSize(s) + |random| == |s| && |random| <= DataSize(s)
    ensures DataSize(SlackEncrypted(c, s, pk, esk, random)) == DataSize(s)
  {
    hide SetBit, ClearBit, Little, Put, Seal, FlagsOf, Value;
    var end := HEADER + DataSize(s);
    var sealed := Seal(c, s[HEADER..end], pk, esk);
    SealSize(c, s[HEADER..end], pk, esk);
    var u := Put(s, DATA_ENC, sealed);
    var t := Put(u, end - |random|, random);
    var f := Little(ClearBit(SetBit(FlagsOf(t), DATA_ENCRYPTED), SIGNED), 2);
    PutElsewhere(t, FLAGS, f, DATA_SIZE, DATA_SIZE + 4);
    PutElsewhere(u, end - |random|, random, DATA_SIZE, DATA_SIZE + 4);
    PutElsewhere(s, DATA_ENC, sealed, DATA_SIZE, DATA_SIZE + 4);
  }

  lemma ReadPlainly(r: seq<byte>, pk: Key, sk: Key)
    requires |r| > HEADER && DataSize(r) == 1
    ensures Lawful(Plainly()) && DataDecrypted(Plainly(), r, pk, sk).Some?
    ensures DataDecrypted(Plainly(), r, pk, sk).value[HEADER] == r[HEADER]
  {
    hide SetBit, ClearBit, Little, Put, DataSize, FlagsOf;
    PlainlyIsLawful();
    var box := r[DATA_ENC..HEADER + 1];
    assert SealOpen(Plainly(), box, pk, sk) == Some(box[32..][16..]);
    assert box[32..][16..] == [r[HEADER]];
    var t := Put(r, HEADER, [r[HEADER]]);
    var f := Little(ClearBit(ClearBit(FlagsOf(t), DATA_ENCRYPTED), SIGNED), 2);
    PutElsewhere(t, FLAGS, f, HEADER, HEADER + 1);
    assert Put(t, FLAGS, f)[HEADER] == Put(t, FLAGS, f)[HEADER..HEADER + 1][0];
    assert t[HEADER] == t[HEADER..HEADER + 1][0];
  }

  lemma PutNothing(s: seq<byte>, at: nat)
    requires at <= |s|
    ensures Put(s, at, []) == s
  {
  }

  lemma FlagsSmall(s: seq<byte>)
    requires |s| >= HEADER
    ensures FlagsOf(s) < 0x1_0000
  {
    ValueBound(s[FLAGS..FLAGS + 2]);
    assert Pow256(2) == 0x1_0000;
  }

  lemma ClearShrinks(f: nat, b: nat)
    requires Flag(b)
    ensures ClearBit(f, b) <= f
  {
  }

  lemma SealedFlags(c: Crypto, s: seq<byte>, at: nat, end: nat, flag: nat, pk: Key, esk: Key)
    requires Lawful(c) && |s| >= HEADER && HEADER_ENC <= at && at + SEALBYTES <= end <= |s| && Flag(flag)
    requires FlagsOf(s) < 8
    ensures FlagsOf(SealedAt(c, s, at, end, flag, pk, esk)) == ClearBit(SetBit(FlagsOf(s), flag), SIGNED)
  {
    hide Little, Value, Put;
    var sealed := Seal(c, s[at + SEALBYTES..end], pk, esk);
    var t := Put(s, at, sealed);
    PutElsewhere(s, at, sealed, FLAGS, FLAGS + 2);
    FlagsRead(t, ClearBit(SetBit(FlagsOf(t), flag), SIGNED));
  }

  /** A signed message verifies under the signer's public key; signing touches the flags and the signature only. */
  lemma SignedVerifies(c: Crypto, s: seq<byte>, sk: seq<byte>)
    requires Lawful(c) && |s| >= HEADER && FlagsOf(s) < 8
    ensures var d := Signed(c, s, sk);
            && Verified(c, d, c.signPublic(sk)) && FlagsOf(d) == SetBit(FlagsOf(s), SIGNED)
            && d[..FLAGS] == s[..FLAGS] && d[HEADER_ENC..] == s[HEADER_ENC..]
  {
    hide Little, Value, Put, SetBit;
    var f := SetBit(FlagsOf(s), SIGNED);
    SetGrows(FlagsOf(s));
    var w := WithFlags(s, f);
    var t := Unsigned(w);
    var sig := c.sign(sk, t);
    var d := Put(t, SIGNATURE, sig);
    FlagsRead(s, f);
    PutElsewhere(w, SIGNATURE, Zeros(64), FLAGS, FLAGS + 2);
    PutElsewhere(t, SIGNATURE, sig, FLAGS, FLAGS + 2);
    PutTwice(t, SIGNATURE, sig);
    PutElsewhere(s, FLAGS, Little(f, 2), HEADER_ENC, |s|);
    PutElsewhere(w, SIGNATURE, Zeros(64), 0, FLAGS);
    PutElsewhere(t, SIGNATURE, sig, 0, FLAGS);
    PutElsewhere(w, SIGNATURE, Zeros(64), HEADER_ENC, |s|);
    PutElsewhere(t, SIGNATURE, sig, HEADER_ENC, |s|);
  }

  lemma SetGrows(f: nat)
    requires f < 8
    ensures SetBit(f, SIGNED) < 16
  {
  }

  /** Clearing the signature of a freshly signed buffer gives back what was signed. */
  lemma PutTwice(t: seq<byte>, at: nat, data: seq<byte>)
    requires at + |data| <= |t| && t[at..at + |data|] == Zeros(|data|)
    ensures Put(Put(t, at, data), at, Zeros(|data|)) == t
  {
  }

  /** What travels in the clear or sealed inside the header: type, size, counter, context, source, dest. */
  function Fields(s: seq<byte>): seq<byte>
    requires |s| >= HEADER
  {
    s[SEALED_HEADER..DATA_ENC]
  }

  /** The shape `MFMessage_Alloc` produces: plain, unsigned, payload of the stated size. */
  predicate Plain(s: seq<byte>) {
    |s| >= HEADER && FlagsOf(s) == 0 && |s| == HEADER + DataSize(s) && Field(s, 0, 4) == |s|
  }

  /** Encrypt the data, encrypt the header, sign: the flags on the way, and the two sealed regions. */
  lemma Outgoing(c: Crypto, s: seq<byte>, pk: Key, e1: Key, e2: Key, signer: seq<byte>)
    requires Lawful(c) && Plain(s)
    ensures var a := DataEncrypted(c, s, pk, e1);
            var b := HeaderEncrypted(c, a, pk, e2);
            var d := Signed(c, b, signer);
            && FlagsOf(a) == DATA_ENCRYPTED
            && FlagsOf(b) == DATA_ENCRYPTED + HEADER_ENCRYPTED
            && FlagsOf(d) == DATA_ENCRYPTED + HEADER_ENCRYPTED + SIGNED
            && Verified(c, d, c.signPublic(signer))
            && Fields(a) == Fields(s) && a[..FLAGS] == b[..FLAGS] == d[..FLAGS] == s[..FLAGS]
            && d[HEADER_ENC..HEADER] == b[HEADER_ENC..HEADER] && d[HEADER..] == a[HEADER..]
  {
    hide DataSize, Field, FlagsOf, SealedAt, Signed, Verified;
    SealedFlags(c, s, DATA_ENC, |s|, DATA_ENCRYPTED, pk, e1);
    SealedFrame(c, s, DATA_ENC, |s|, DATA_ENCRYPTED, pk, e1, SEALED_HEADER, DATA_ENC);
    SealedFrame(c, s, DATA_ENC, |s|, DATA_ENCRYPTED, pk, e1, 0, FLAGS);
    var a := DataEncrypted(c, s, pk, e1);
    SealedFlags(c, a, HEADER_ENC, HEADER, HEADER_ENCRYPTED, pk, e2);
    SealedFrame(c, a, HEADER_ENC, HEADER, HEADER_ENCRYPTED, pk, e2, 0, FLAGS);
    SealedFrame(c, a, HEADER_ENC, HEADER, HEADER_ENCRYPTED, pk, e2, HEADER, |s|);
    var b := HeaderEncrypted(c, a, pk, e2);
    SignedVerifies(c, b, signer);
    var d := Signed(c, b, signer);
    assert d[HEADER_ENC..][..HEADER - HEADER_ENC] == d[HEADER_ENC..HEADER];
    assert b[HEADER_ENC..][..HEADER - HEADER_ENC] == b[HEADER_ENC..HEADER];
    assert d[HEADER_ENC..][HEADER - HEADER_ENC..] == d[HEADER..];
    assert b[HEADER_ENC..][HEADER - HEADER_ENC..] == b[HEADER..];
  }

  /** The whole way: with matching keys the message verifies, both layers open, and payload, type, size, counter,
      context, source and destination come back byte for byte. */
  lemma Envelope(c: Crypto, s: seq<byte>, sk: Key, e1: Key, e2: Key, signer: seq<byte>)
    requires Lawful(c) && Plain(s)
    ensures var pk := c.boxPublic(sk);
            var d := Signed(c, HeaderEncrypted(c, DataEncrypted(c, s, pk, e1), pk, e2), signer);
            var h := HeaderDecrypted(c, d, pk, sk);
            && Verified(c, d, c.signPublic(signer))
            && h.Some? && |h.value| == |s| && FlagsOf(h.value) == DATA_ENCRYPTED && HEADER + DataSize(h.value) == |s|
            && var p := DataDecrypted(c, h.value, pk, sk);
            && p.Some? && |p.value| == |s| && Plain(p.value)
            && Fields(p.value) == Fields(s) && p.value[HEADER..] == s[HEADER..] && p.value[..FLAGS] == s[..FLAGS]
  {
    hide FlagsOf, SealedAt, OpenedAt, Signed, Verified, ClearBit, SetBit, Value;
    var pk := c.boxPublic(sk);
    var a := DataEncrypted(c, s, pk, e1);
    var b := HeaderEncrypted(c, a, pk, e2);
    var d := Signed(c, b, signer);
    Outgoing(c, s, pk, e1, e2, signer);
    OpenAfterSeal(c, a, d, HEADER_ENC, HEADER, HEADER_ENCRYPTED, sk, e2);
    var h := HeaderDecrypted(c, d, pk, sk).value;
    FlagArithmetic();
    HeaderRestored(a, h);
    assert h[HEADER..|s|] == d[HEADER..|s|] && h[0..FLAGS] == d[0..FLAGS];
    SameSize(s, a, h);
    assert h[DATA_ENC..|s|] == h[DATA_ENC..HEADER] + h[HEADER..|s|];
    assert a[DATA_ENC..|s|] == a[DATA_ENC..HEADER] + a[HEADER..|s|];
    OpenAfterSeal(c, s, h, DATA_ENC, |s|, DATA_ENCRYPTED, sk, e1);
    var p := DataDecrypted(c, h, pk, sk).value;
    assert p[SEALED_HEADER..DATA_ENC] == h[SEALED_HEADER..DATA_ENC] && p[0..FLAGS] == h[0..FLAGS];
    assert p[HEADER..|s|] == s[HEADER..|s|];
    SameSize(s, s, p);
    assert p[..4] == p[..FLAGS][..4] && s[..4] == s[..FLAGS][..4];
    assert p[0..4] == s[0..4];
  }

  /** Setting the counter or the context keeps the shape and changes nothing else. */
  lemma NumberedIsPlain(s: seq<byte>, at: nat, v: u64)
    requires Plain(s) && (at == COUNTER || at == CONTEXT)
    ensures var t := Put(s, at, Little(v, 8));
            && Plain(t) && Field(t, at, 8) == v && t[HEADER..] == s[HEADER..]
            && Field(t, TYPE, 4) == Field(s, TYPE, 4) && t[SOURCE..HEADER] == s[SOURCE..HEADER]
  {
    hide Little, Value, Put;
    var d := Little(v, 8);
    var t := Put(s, at, d);
    EightBytes(v);
    PutElsewhere(s, at, d, 0, 4);
    PutElsewhere(s, at, d, FLAGS, FLAGS + 2);
    PutElsewhere(s, at, d, TYPE, TYPE + 4);
    PutElsewhere(s, at, d, DATA_SIZE, DATA_SIZE + 4);
    PutElsewhere(s, at, d, SOURCE, HEADER);
    PutElsewhere(s, at, d, HEADER, |s|);
    assert t[HEADER..|s|] == t[HEADER..] && s[HEADER..|s|] == s[HEADER..];
  }

  lemma EightBytes(v: u64)
    ensures Value(Little(v, 8)) == v
  {
    assert Pow256(8) == 256 * Pow256(7) && Pow256(7) == 256 * Pow256(6) && Pow256(6) == 256 * Pow256(5);
    assert Pow256(5) == 256 * Pow256(4) && Pow256(4) == 256 * Pow256(3) && Pow256(3) == 256 * Pow256(2)
        && Pow256(2) == 0x1_0000;
    ValueLittle(v, 8);
  }

  lemma FlagArithmetic()
    ensures ClearBit(ClearBit(7, HEADER_ENCRYPTED), SIGNED) == 4 && ClearBit(ClearBit(4, DATA_ENCRYPTED), SIGNED) == 0
  {
  }

  /** The opened header is the header before it was sealed. */
  lemma HeaderRestored(a: seq<byte>, h: seq<byte>)
    requires |a| == |h| >= HEADER && h[HEADER_ENC + SEALBYTES..HEADER] == a[HEADER_ENC + SEALBYTES..HEADER]
    ensures Fields(h) == Fields(a) && h[DATA_ENC..HEADER] == a[DATA_ENC..HEADER]
  {
    var x, y := h[SEALED_HEADER..HEADER], a[SEALED_HEADER..HEADER];
    assert Fields(h) == x[..DATA_ENC - SEALED_HEADER] && Fields(a) == y[..DATA_ENC - SEALED_HEADER];
    assert h[DATA_ENC..HEADER] == x[DATA_ENC - SEALED_HEADER..] && a[DATA_ENC..HEADER] == y[DATA_ENC - SEALED_HEADER..];
  }

  lemma SameSize(s: seq<byte>, a: seq<byte>, h: seq<byte>)
    requires |s| >= HEADER && |a| >= HEADER && |h| >= HEADER && Fields(h) == Fields(a) == Fields(s)
    ensures DataSize(h) == DataSize(a) == DataSize(s)
  {
    SizeField(s);
    SizeField(a);
    SizeField(h);
  }

  /** A freshly allocated message has that shape and carries what it was given. */
  lemma AllocatedIsPlain(typ: u32, p: Parties, data: seq<byte>)
    requires GuidsFit(p) && HEADER + |data| < U32
    ensures var s := Allocated(typ, p, data);
            && Plain(s) && s[HEADER..] == data && Field(s, TYPE, 4) == typ
            && (p.source.Some? ==> s[SOURCE..SOURCE + 16] == p.source.value)
            && (p.dest.Some? ==> s[DEST..DEST + 16] == p.dest.value)
  {
    hide Little, Value;
    Fours(typ);
    Fours(|data|);
    Fours(HEADER + |data|);
    ValueZeros(2);
    assert Zeros(HEADER + |data|)[FLAGS..FLAGS + 2] == Zeros(2);
    AllocatedParts(typ, p, data);
  }

  /** One byte of a new message. */
  function NewByte(typ: u32, p: Parties, data: seq<byte>, k: nat): byte
    requires GuidsFit(p) && k < 224 + |data| < U32
  {
    if k < 4 then Little(224 + |data|, 4)[k]
    else if k < 6 then Little(1, 2)[k - 4]
    else if 120 <= k < 124 then Little(typ, 4)[k - 120]
    else if 124 <= k < 128 then Little(|data|, 4)[k - 124]
    else if 144 <= k < 160 && p.source.Some? then p.source.value[k - 144]
    else if 160 <= k < 176 && p.dest.Some? then p.dest.value[k - 160]
    else if k >= 224 then data[k - 224]
    else 0
  }

  lemma PutAt(s: seq<byte>, at: nat, data: seq<byte>, k: nat)
    requires at + |data| <= |s| && k < |s|
    ensures Put(s, at, data)[k] == if at <= k < at + |data| then data[k - at] else s[k]
  {
  }

  lemma GuidAt(s: seq<byte>, at: nat, g: Option<seq<byte>>, k: nat)
    requires at + 16 <= |s| && (g.Some? ==> |g.value| == 16) && k < |s|
    ensures PutGuid(s, at, g)[k] == if g.Some? && at <= k < at + 16 then g.value[k - at] else s[k]
  {
    hide Put;
    if g.Some? {
      PutAt(s, at, g.value, k);
    }
  }

  lemma AllocatedAt(typ: u32, p: Parties, data: seq<byte>, k: nat)
    requires GuidsFit(p) && k < 224 + |data| < U32
    ensures Allocated(typ, p, data)[k] == NewByte(typ, p, data, k)
  {
    hide Little, Put, PutGuid;
    var n := HEADER + |data|;
    var s0 := Put(Zeros(n), 4, Little(VERSION, 2));
    var s1 := Put(s0, 0, Little(n, 4));
    var s2 := Put(s1, TYPE, Little(typ, 4));
    var s3 := Put(s2, DATA_SIZE, Little(|data|, 4));
    var s4 := Put(s3, HEADER, data);
    var s5 := PutGuid(s4, SOURCE, p.source);
    PutAt(Zeros(n), 4, Little(VERSION, 2), k);
    PutAt(s0, 0, Little(n, 4), k);
    PutAt(s1, TYPE, Little(typ, 4), k);
    PutAt(s2, DATA_SIZE, Little(|data|, 4), k);
    PutAt(s3, HEADER, data, k);
    GuidAt(s4, SOURCE, p.source, k);
    GuidAt(s5, DEST, p.dest, k);
  }

  /** A stretch of a new message. */
  lemma Region(typ: u32, p: Parties, data: seq<byte>, at: nat, x: seq<byte>)
    requires GuidsFit(p) && 224 + |data| < U32 && at + |x| <= 224 + |data|
    requires forall k :: at <= k < at + |x| ==> NewByte(typ, p, data, k) == x[k - at]
    ensures Allocated(typ, p, data)[at..at + |x|] == x
  {
    hide Allocated, NewByte;
    forall k | at <= k < at + |x| ensures Allocated(typ, p, data)[k] == x[k - at] {
      AllocatedAt(typ, p, data, k);
    }
  }

  /** Every byte of a new message. */
  lemma AllocatedIs(typ: u32, p: Parties, data: seq<byte>)
    requires GuidsFit(p) && 224 + |data| < U32
    ensures var s := Allocated(typ, p, data);
            && |s| == 224 + |data|
            && s[..4] == Little(224 + |data|, 4) && s[4..6] == Little(1, 2) && s[6..120] == Zeros(114)
            && s[120..124] == Little(typ, 4) && s[124..128] == Little(|data|, 4) && s[128..144] == Zeros(16)
            && s[144..160] == (if p.source.Some? then p.source.value else Zeros(16))
            && s[160..176] == (if p.dest.Some? then p.dest.value else Zeros(16))
            && s[176..224] == Zeros(48) && s[224..] == data
  {
    hide Little, Allocated;
    Region(typ, p, data, 0, Little(224 + |data|, 4));
    Region(typ, p, data, 4, Little(1, 2));
    Region(typ, p, data, 6, Zeros(114));
    Region(typ, p, data, 120, Little(typ, 4));
    Region(typ, p, data, 124, Little(|data|, 4));
    Region(typ, p, data, 128, Zeros(16));
    Region(typ, p, data, 144, if p.source.Some? then p.source.value else Zeros(16));
    Region(typ, p, data, 160, if p.dest.Some? then p.dest.value else Zeros(16));
    Region(typ, p, data, 176, Zeros(48));
    Region(typ, p, data, 224, data);
    var s := Allocated(typ, p, data);
    assert s[224..] == s[224..224 + |data|];
  }

  lemma Fours(v: nat)
    requires v < U32
    ensures Value(Little(v, 4)) == v
  {
    assert Pow256(4) == 256 * Pow256(3) && Pow256(3) == 256 * Pow256(2) && Pow256(2) == 0x1_0000;
    ValueLittle(v, 4);
  }

  lemma AllocatedParts(typ: u32, p: Parties, data: seq<byte>)
    requires GuidsFit(p) && HEADER + |data| < U32
    ensures var s := Allocated(typ, p, data);
            && s[0..4] == Little(HEADER + |data|, 4) && s[FLAGS..FLAGS + 2] == Zeros(HEADER + |data|)[FLAGS..FLAGS + 2]
            && s[TYPE..TYPE + 4] == Little(typ, 4) && s[DATA_SIZE..DATA_SIZE + 4] == Little(|data|, 4)
            && s[HEADER..] == data
            && (p.source.Some? ==> s[SOURCE..SOURCE + 16] == p.source.value)
            && (p.dest.Some? ==> s[DEST..DEST + 16] == p.dest.value)
  {
    hide Little, Put;
    var n := HEADER + |data|;
    var s0 := Put(Zeros(n), 4, Little(VERSION, 2));
    var s1 := Put(s0, 0, Little(n, 4));
    var s2 := Put(s1, TYPE, Little(typ, 4));
    var s3 := Put(s2, DATA_SIZE, Little(|data|, 4));
    var s4 := Put(s3, HEADER, data);
    PutElsewhere(Zeros(n), 4, Little(VERSION, 2), FLAGS, FLAGS + 2);
    PutElsewhere(s0, 0, Little(n, 4), FLAGS, FLAGS + 2);
    Kept4(s1, typ, |data|, data, 0, 4);
    Kept4(s1, typ, |data|, data, FLAGS, FLAGS + 2);
    PutElsewhere(s2, DATA_SIZE, Little(|data|, 4), TYPE, TYPE + 4);
    PutElsewhere(s3, HEADER, data, TYPE, TYPE + 4);
    PutElsewhere(s3, HEADER, data, DATA_SIZE, DATA_SIZE + 4);
    GuidsElsewhere(s4, p, 0, 4);
    GuidsElsewhere(s4, p, FLAGS, FLAGS + 2);
    GuidsElsewhere(s4, p, TYPE, TYPE + 4);
    GuidsElsewhere(s4, p, DATA_SIZE, DATA_SIZE + 4);
    GuidsElsewhere(s4, p, HEADER, n);
    assert s4[HEADER..n] == data && Allocated(typ, p, data)[HEADER..n] == Allocated(typ, p, data)[HEADER..];
    var s5 := PutGuid(s4, SOURCE, p.source);
    if p.dest.Some? {
      PutElsewhere(s5, DEST, p.dest.value, SOURCE, SOURCE + 16);
    }
  }

  lemma Kept4(s: seq<byte>, typ: u32, size: u32, data: seq<byte>, lo: nat, hi: nat)
    requires |s| == HEADER + |data| && lo <= hi <= TYPE
    ensures Put(Put(Put(s, TYPE, Little(typ, 4)), DATA_SIZE, Little(size, 4)), HEADER, data)[lo..hi] == s[lo..hi]
  {
    hide Little, Put;
    var s2 := Put(s, TYPE, Little(typ, 4));
    var s3 := Put(s2, DATA_SIZE, Little(size, 4));
    PutElsewhere(s, TYPE, Little(typ, 4), lo, hi);
    PutElsewhere(s2, DATA_SIZE, Little(size, 4), lo, hi);
    PutElsewhere(s3, HEADER, data, lo, hi);
  }

  lemma GuidsElsewhere(s: seq<byte>, p: Parties, lo: nat, hi: nat)
    requires |s| >= HEADER && GuidsFit(p) && lo <= hi <= |s| && (hi <= SOURCE || DEST + 16 <= lo)
    ensures PutGuid(PutGuid(s, SOURCE, p.source), DEST, p.dest)[lo..hi] == s[lo..hi]
  {
    hide Put;
    if p.source.Some? {
      PutElsewhere(s, SOURCE, p.source.value, lo, hi);
    }
    if p.dest.Some? {
      PutElsewhere(PutGuid(s, SOURCE, p.source), DEST, p.dest.value, lo, hi);
    }
  }

  lemma SizeField(t: seq<byte>)
    requires |t| >= HEADER
    ensures DataSize(t) == Value(Fields(t)[4..8])
  {
    var x, y := t[DATA_SIZE..DATA_SIZE + 4], Fields(t)[4..8];
    forall i | 0 <= i < 4 ensures x[i] == y[i] {
      assert y[i] == Fields(t)[4 + i] == t[SEALED_HEADER + 4 + i];
    }
    assert x == y;
  }

  // ----------------------------------------------------------- the message

  /** A message buffer; the operations assert the flags they need and rewrite it in place. */
  class Message {
    const buf: array<byte>

    ghost predicate Valid() { buf.Length >= HEADER }

    /** The buffer of `MFMessage_Alloc`, filled. */
    constructor (typ: u32, p: Parties, data: seq<byte>)
      requires GuidsFit(p) && HEADER + |data| < U32
      ensures Valid() && fresh(buf) && buf[..] == Allocated(typ, p, data)
    {
      hide Put, Little;
      buf := new byte[HEADER + |data|](_ => Zero());
      new;
      assert buf[..] == Zeros(HEADER + |data|);
      Write(4, Little(VERSION, 2));
      Write(0, Little(HEADER + |data|, 4));
      Write(TYPE, Little(typ, 4));
      Write(DATA_SIZE, Little(|data|, 4));
      Write(HEADER, data);
      if p.source.Some? {
        Write(SOURCE, p.source.value);
      }
      if p.dest.Some? {
        Write(DEST, p.dest.value);
      }
    }

    method Write(at: nat, data: seq<byte>)
      requires at + |data| <= buf.Length
      modifies buf
      ensures buf[..] == Put(old(buf[..]), at, data)
    {
      CopyInto(buf, at, data);
      assert buf[..] == buf[..at] + buf[at..at + |data|] + buf[at + |data|..];
    }

    method WriteFlags(f: nat)
      requires Valid()
      modifies buf
      ensures buf[..] == WithFlags(old(buf[..]), f)
    {
      Write(FLAGS, Little(f, 2));
    }

    /** `MFMessage_SetCounter`. */
    method SetCounter(counter: u64)
      requires Valid()
      modifies buf
      ensures buf[..] == Put(old(buf[..]), COUNTER, Little(counter, 8))
    {
      Write(COUNTER, Little(counter, 8));
    }

    /** `MFMessage_SetContext`. */
    method SetContext(context: u64)
      requires Valid()
      modifies buf
      ensures buf[..] == Put(old(buf[..]), CONTEXT, Little(context, 8))
    {
      Write(CONTEXT, Little(context, 8));
    }

    /** `MFMessage_DataEncrypt`; `random` stands for the random bytes, as many as there is slack. They are placed
        before the buffer, and the call faults, when there is more slack than header and payload together. */
    method DataEncrypt(c: Crypto, pk: Key, esk: Key, random: seq<byte>) returns (faulted: bool)
      requires Lawful(c) && Valid() && HEADER + DataSize(buf[..]) + |random| == buf.Length
      requires !HasBit(FlagsOf(buf[..]), DATA_ENCRYPTED) && !HasBit(FlagsOf(buf[..]), HEADER_ENCRYPTED)
      modifies buf
      ensures faulted <==> |random| > HEADER + DataSize(old(buf[..]))
      ensures !faulted ==> buf[..] == SlackEncrypted(c, old(buf[..]), pk, esk, random)
    {
      hide Put, Little, Seal, Value;
      var end := HEADER + DataSize(buf[..]);
      assert buf[..][HEADER..end] == buf[HEADER..end];
      SealSize(c, buf[HEADER..end], pk, esk);
      Write(DATA_ENC, Seal(c, buf[HEADER..end], pk, esk));
      if |random| > end {
        return true;
      }
      Write(end - |random|, random);
      WriteFlags(ClearBit(SetBit(FlagsOf(buf[..]), DATA_ENCRYPTED), SIGNED));
      faulted := false;
    }

    /** `MFMessage_HeaderEncrypt`. */
    method HeaderEncrypt(c: Crypto, pk: Key, esk: Key)
      requires Lawful(c) && Valid() && !HasBit(FlagsOf(buf[..]), HEADER_ENCRYPTED)
      modifies buf
      ensures buf[..] == HeaderEncrypted(c, old(buf[..]), pk, esk)
    {
      hide Put, Little, Seal;
      assert buf[..][SEALED_HEADER..HEADER] == buf[SEALED_HEADER..HEADER];
      SealSize(c, buf[SEALED_HEADER..HEADER], pk, esk);
      Write(HEADER_ENC, Seal(c, buf[SEALED_HEADER..HEADER], pk, esk));
      WriteFlags(ClearBit(SetBit(FlagsOf(buf[..]), HEADER_ENCRYPTED), SIGNED));
    }

    /** `MFMessage_Sign`. */
    method Sign(c: Crypto, sk: seq<byte>)
      requires Valid()
      modifies buf
      ensures buf[..] == Signed(c, old(buf[..]), sk)
    {
      hide Put, Little;
      WriteFlags(SetBit(FlagsOf(buf[..]), SIGNED));
      Write(SIGNATURE, Zeros(64));
      var s := c.sign(sk, buf[..]);
      Write(SIGNATURE, s);
    }

    /** `MFMessage_Verify`: the buffer is as before when it returns. */
    method Verify(c: Crypto, pk: Key) returns (ok: bool)
      requires Valid() && HasBit(FlagsOf(buf[..]), SIGNED)
      modifies buf
      ensures ok == Verified(c, old(buf[..]), pk) && buf[..] == old(buf[..])
    {
      hide Little;
      ghost var was := buf[..];
      var s := buf[SIGNATURE..SIGNATURE + 64];
      assert s == was[SIGNATURE..SIGNATURE + 64];
      Write(SIGNATURE, Zeros(64));
      ok := c.verify(pk, s, buf[..]);
      Write(SIGNATURE, s);
    }

    /** `MFMessage_HeaderDecrypt`: on failure nothing changes. */
    method HeaderDecrypt(c: Crypto, pk: Key, sk: Key) returns (ok: bool)
      requires Lawful(c) && Valid() && HasBit(FlagsOf(buf[..]), HEADER_ENCRYPTED)
      modifies buf
      ensures ok <==> HeaderDecrypted(c, old(buf[..]), pk, sk).Some?
      ensures buf[..] == if ok then HeaderDecrypted(c, old(buf[..]), pk, sk).value else old(buf[..])
    {
      hide Put, Little;
      assert buf[..][HEADER_ENC..HEADER] == buf[HEADER_ENC..HEADER];
      var m := SealOpen(c, buf[HEADER_ENC..HEADER], pk, sk);
      if m.None? {
        return false;
      }
      OpenSize(c, buf[HEADER_ENC..HEADER], pk, sk);
      Write(SEALED_HEADER, m.value);
      WriteFlags(ClearBit(ClearBit(FlagsOf(buf[..]), HEADER_ENCRYPTED), SIGNED));
      return true;
    }

    /** `MFMessage_DataDecrypt`: on failure nothing changes. */
    method DataDecrypt(c: Crypto, pk: Key, sk: Key) returns (ok: bool)
      requires Lawful(c) && Valid() && HEADER + DataSize(buf[..]) <= buf.Length
      requires !HasBit(FlagsOf(buf[..]), HEADER_ENCRYPTED) && HasBit(FlagsOf(buf[..]), DATA_ENCRYPTED)
      modifies buf
      ensures ok <==> DataDecrypted(c, old(buf[..]), pk, sk).Some?
      ensures buf[..] == if ok then DataDecrypted(c, old(buf[..]), pk, sk).value else old(buf[..])
    {
      hide Put, Little, Value;
      var end := HEADER + DataSize(buf[..]);
      assert buf[..][DATA_ENC..end] == buf[DATA_ENC..end];
      var m := SealOpen(c, buf[DATA_ENC..end], pk, sk);
      if m.None? {
        return false;
      }
      OpenSize(c, buf[DATA_ENC..end], pk, sk);
      Write(HEADER, m.value);
      WriteFlags(ClearBit(ClearBit(FlagsOf(buf[..]), DATA_ENCRYPTED), SIGNED));
      return true;
    }
  }

  lemma OpenSize(c: Crypto, s: seq<byte>, pk: Key, sk: Key)
    requires Lawful(c) && SealOpen(c, s, pk, sk).Some?
    ensures |SealOpen(c, s, pk, sk).value| + SEALBYTES == |s|
  {
  }

  datatype Allocation = NoMemory | Faulted | Created

  /** `MFMessage_Alloc`. A total size of more than 32 bits is truncated, and the copy has no room. */
  method Alloc(typ: u32, p: Parties, data: seq<byte>, hasMemory: bool) returns (a: Allocation, m: Message?)
    requires GuidsFit(p)
    ensures a == if !hasMemory then NoMemory else if HEADER + |data| >= U32 then Faulted else Created
    ensures a == Created <==> m != null
    ensures m != null ==> m.Valid() && fresh(m) && fresh(m.buf) && m.buf[..] == Allocated(typ, p, data)
  {
    if !hasMemory {
      return NoMemory, null;
    }
    var totalSize := Wrap32(HEADER + |data|);
    if totalSize < HEADER + |data| {
      return Faulted, null;
    }
    m := new Message(typ, p, data);
    a := Created;
  }

  /** The six operations in order on one buffer: every flag the code asserts is as it must be, the signature verifies,
      both layers open, and fields and payload are as they were. */
  method Exchange(c: Crypto, m: Message, sk: Key, e1: Key, e2: Key, signer: seq<byte>) returns (ok: bool)
    requires Lawful(c) && m.Valid() && Plain(m.buf[..])
    modifies m.buf
    ensures ok && Plain(m.buf[..])
    ensures Fields(m.buf[..]) == old(Fields(m.buf[..])) && m.buf[HEADER..] == old(m.buf[HEADER..])
  {
    hide *;
    ghost var s := m.buf[..];
    var pk := c.boxPublic(sk);
    PlainParts(s);
    PayloadOf(m.buf);
    Outgoing(c, s, pk, e1, e2, signer);
    Envelope(c, s, sk, e1, e2, signer);
    FlagBits();
    var faulted := m.DataEncrypt(c, pk, e1, []);
    NoSlack(c, s, pk, e1);
    m.HeaderEncrypt(c, pk, e2);
    m.Sign(c, signer);
    ok := m.Verify(c, c.signPublic(signer));
    var headerOpen := m.HeaderDecrypt(c, pk, sk);
    var dataOpen := m.DataDecrypt(c, pk, sk);
    ok := ok && headerOpen && dataOpen && !faulted;
    PayloadOf(m.buf);
  }

  lemma PayloadOf(a: array<byte>)
    requires a.Length >= HEADER
    ensures a[HEADER..] == a[..][HEADER..]
  {
  }

  lemma PlainParts(s: seq<byte>)
    requires Plain(s)
    ensures |s| >= HEADER && FlagsOf(s) == 0 && |s| == HEADER + DataSize(s)
  {
  }

  lemma FlagBits()
    ensures !HasBit(0, DATA_ENCRYPTED) && !HasBit(0, HEADER_ENCRYPTED) && !HasBit(DATA_ENCRYPTED, HEADER_ENCRYPTED)
    ensures HasBit(DATA_ENCRYPTED + HEADER_ENCRYPTED + SIGNED, SIGNED)
    ensures HasBit(DATA_ENCRYPTED + HEADER_ENCRYPTED + SIGNED, HEADER_ENCRYPTED)
    ensures HasBit(DATA_ENCRYPTED, DATA_ENCRYPTED)
  {
  }

  lemma SealSize(c: Crypto, m: seq<byte>, pk: Key, esk: Key)
    requires Lawful(c)
    ensures |Seal(c, m, pk, esk)| == |m| + SEALBYTES
  {
  }
}
