/**
 AEGIS-256 with AES-NI: six registers updated in place, 16 bytes per step. The AES round
 instruction is a parameter.
 */
module Aegis256 {
  import opened Machine
  import opened Bytes
  import opened Duplex
  import Limbs

  type Block = s: seq<byte> | |s| == 16 witness Zeros(16)
  type Wide = s: seq<byte> | |s| == 32 witness Zeros(32)
  datatype Regs = Regs(s0: Block, s1: Block, s2: Block, s3: Block, s4: Block, s5: Block)

  /** `_mm_aesenc_si128`. */
  type Round = (Block, Block) -> Block

  function X(a: Block, b: Block): Block { XorAll(a, b) }
  function A(a: Block, b: Block): Block { AndAll(a, b) }

  // ------------------------------------------------------- specification

  function Updated(aes: Round, s: Regs, data: Block): Regs {
    Regs(X(aes(s.s5, s.s0), data), aes(s.s0, s.s1), aes(s.s1, s.s2), aes(s.s2, s.s3), aes(s.s3, s.s4), aes(s.s4, s.s5))
  }

  /** In the AES round the key is added last. */
  ghost predicate KeyAddedLast(aes: Round) { forall x: Block, k: Block :: aes(x, k) == X(aes(x, Zeros(16)), k) }

  /** The state update as the specification of AEGIS has it: the message goes in with the round key. */
  lemma UpdatedIsAegis(aes: Round, s: Regs, m: Block)
    requires KeyAddedLast(aes)
    ensures Updated(aes, s, m) ==
            Regs(aes(s.s5, X(s.s0, m)), aes(s.s0, s.s1), aes(s.s1, s.s2), aes(s.s2, s.s3), aes(s.s3, s.s4),
                 aes(s.s4, s.s5))
  {
    hide XorAll;
    XorAllAssociative(aes(s.s5, Zeros(16)), s.s0, m);
    assert aes(s.s5, X(s.s0, m)) == X(aes(s.s5, Zeros(16)), X(s.s0, m));
  }

  /** The keystream of a state. */
  function Stream(s: Regs): (k: seq<byte>)
    ensures |k| == 16
  {
    X(X(X(s.s5, s.s4), s.s1), A(s.s2, s.s3))
  }

  /** The keystream byte by byte. */
  lemma StreamIs(s: Regs, j: nat)
    requires j < 16
    ensures Stream(s)[j] == Xor(Xor(Xor(s.s5[j], s.s4[j]), s.s1[j]), And(s.s2[j], s.s3[j]))
  {
    hide Xor, And;
  }

  function Absorb(aes: Round, s: Regs, data: seq<byte>): Regs {
    if |data| == 16 then Updated(aes, s, data) else s
  }

  function ModeOf(aes: Round): Mode<Regs> {
    Mode(16, Stream, (s: Regs, data: seq<byte>) => Absorb(aes, s, data))
  }

  lemma ModeIsSound(aes: Round)
    ensures Sound(ModeOf(aes)) && ModeOf(aes).rate == 16
    ensures forall s :: ModeOf(aes).stream(s) == Stream(s)
    ensures forall s, data :: ModeOf(aes).absorb(s, data) == Absorb(aes, s, data)
  {
    hide Stream, Absorb;
  }

  function C1(): Block {
    [0xdb, 0x3d, 0x18, 0x55, 0x6d, 0xc2, 0x2f, 0xf1, 0x20, 0x11, 0x31, 0x42, 0x73, 0xb5, 0x28, 0xdd]
  }

  function C2(): Block {
    [0x00, 0x01, 0x01, 0x02, 0x03, 0x05, 0x08, 0x0d, 0x15, 0x22, 0x37, 0x59, 0x90, 0xe9, 0x79, 0x62]
  }

  /** The constants are the Fibonacci numbers modulo 256. */
  lemma Fibonacci()
    ensures C2()[0] == 0 && C2()[1] == 1
    ensures C1()[0] == Next(C2()[14], C2()[15]) && C1()[1] == Next(C2()[15], C1()[0])
    ensures forall i :: 2 <= i < 16 ==> C2()[i] == Next(C2()[i - 2], C2()[i - 1])
    ensures forall i :: 2 <= i < 16 ==> C1()[i] == Next(C1()[i - 2], C1()[i - 1])
  {
    var a, b := C2(), C1();
    forall i | 2 <= i < 16 ensures a[i] == Next(a[i - 2], a[i - 1]) && b[i] == Next(b[i - 2], b[i - 1]) {
    }
  }

  function Next(x: byte, y: byte): byte { (x as int + y as int) % 256 }

  function Four(aes: Round, s: Regs, k1: Block, k2: Block, k3: Block, k4: Block): Regs {
    Updated(aes, Updated(aes, Updated(aes, Updated(aes, s, k1), k2), k3), k4)
  }

  function Rounds(aes: Round, s: Regs, k1: Block, k2: Block, k3: Block, k4: Block, n: nat): Regs {
    if n == 0 then s else Four(aes, Rounds(aes, s, k1, k2, k3, k4, n - 1), k1, k2, k3, k4)
  }

  function Initial(aes: Round, key: Wide, iv: Wide): Regs {
    var k1: Block, k2: Block := key[..16], key[16..];
    var k3, k4 := X(k1, iv[..16]), X(k2, iv[16..]);
    Rounds(aes, Regs(k3, k4, C1(), C2(), X(k1, C2()), X(k2, C1())), k1, k2, k3, k4, 4)
  }

  /** The sixteen updates of the initialisation: the two halves of the key, then the two halves of key xor nonce, four
      times over. */
  lemma InitialIs(aes: Round, key: Wide, iv: Wide, k: seq<Block>, t: seq<Regs>)
    requires |k| == 4 && k[0] == key[..16] && k[1] == key[16..]
    requires k[2] == X(k[0], iv[..16]) && k[3] == X(k[1], iv[16..])
    requires |t| == 17 && t[0] == Regs(k[2], k[3], C1(), C2(), X(k[0], C2()), X(k[1], C1()))
    requires forall i :: 0 <= i < 16 ==> t[i + 1] == Updated(aes, t[i], k[i % 4])
    ensures Initial(aes, key, iv) == t[16]
  {
    hide Updated, XorAll, C1, C2;
    RoundsAre(aes, k, t, 4);
  }

  lemma {:induction false} RoundsAre(aes: Round, k: seq<Block>, t: seq<Regs>, n: nat)
    requires |k| == 4 && 4 * n < |t| && forall i :: 0 <= i < 4 * n ==> t[i + 1] == Updated(aes, t[i], k[i % 4])
    ensures Rounds(aes, t[0], k[0], k[1], k[2], k[3], n) == t[4 * n]
  {
    hide Updated;
    if n > 0 {
      var b := 4 * (n - 1);
      RoundsAre(aes, k, t, n - 1);
      assert t[b + 1] == Updated(aes, t[b], k[0]) && t[b + 2] == Updated(aes, t[b + 1], k[1]);
      assert t[b + 3] == Updated(aes, t[b + 2], k[2]) && t[b + 4] == Updated(aes, t[b + 3], k[3]);
    }
  }

  function Repeated(aes: Round, s: Regs, data: Block, n: nat): Regs {
    if n == 0 then s else Updated(aes, Repeated(aes, s, data, n - 1), data)
  }

  /** Bit lengths of the associated data and the message, as two 64-bit words. */
  function Lengths(adlen: nat, mlen: nat): Block {
    Little(Wrap64(adlen * 8), 8) + Little(Wrap64(mlen * 8), 8)
  }

  /** The bit length of the associated data comes first, then that of the message, in 64 bits each. */
  lemma LengthsAre(adlen: nat, mlen: nat)
    requires 8 * adlen < U64 && 8 * mlen < U64
    ensures Value(Lengths(adlen, mlen)[..8]) == 8 * adlen && Value(Lengths(adlen, mlen)[8..]) == 8 * mlen
  {
    hide Value, Little;
    EightBytes();
    ValueLittle(8 * adlen, 8);
    ValueLittle(8 * mlen, 8);
    assert Lengths(adlen, mlen)[..8] == Little(8 * adlen, 8) && Lengths(adlen, mlen)[8..] == Little(8 * mlen, 8);
  }

  lemma EightBytes()
    ensures Pow256(8) == U64
  {
    assert Pow256(4) == 256 * Pow256(3) && Pow256(3) == 256 * Pow256(2) && Pow256(2) == 0x1_0000;
    assert Pow256(8) == 256 * Pow256(7) && Pow256(7) == 256 * Pow256(6);
    assert Pow256(6) == 256 * Pow256(5) && Pow256(5) == 256 * Pow256(4);
  }

  function Tag(aes: Round, s: Regs, adlen: nat, mlen: nat): Block {
    var t := X(Lengths(adlen, mlen), s.s3);
    var f := Repeated(aes, s, t, 7);
    X(X(X(X(X(f.s5, f.s4), f.s3), f.s2), f.s1), f.s0)
  }

  /** The tag: seven updates with the lengths added to register 3, then the sum of all six registers. */
  lemma TagIs(aes: Round, adlen: nat, mlen: nat, t: seq<Regs>, j: nat)
    requires |t| == 8 && j < 16
    requires forall i :: 0 <= i < 7 ==> t[i + 1] == Updated(aes, t[i], X(Lengths(adlen, mlen), t[0].s3))
    ensures var f := t[7];
            Tag(aes, t[0], adlen, mlen)[j] ==
            Xor(Xor(Xor(Xor(Xor(f.s5[j], f.s4[j]), f.s3[j]), f.s2[j]), f.s1[j]), f.s0[j])
  {
    hide Updated, Xor, Lengths, Repeated;
    RepeatedIs(aes, X(Lengths(adlen, mlen), t[0].s3), t, 7);
  }

  lemma {:induction false} RepeatedIs(aes: Round, data: Block, t: seq<Regs>, n: nat)
    requires n < |t| && forall i :: 0 <= i < n ==> t[i + 1] == Updated(aes, t[i], data)
    ensures Repeated(aes, t[0], data, n) == t[n]
  {
    hide Updated;
    if n > 0 {
      RepeatedIs(aes, data, t, n - 1);
    }
  }

  /** The state before the message. */
  function Begun(aes: Round, key: Wide, iv: Wide, ad: seq<byte>): Regs {
    Absorbed(ModeOf(aes), Initial(aes, key, iv), ad)
  }

  function Sealed(aes: Round, key: Wide, iv: Wide, ad: seq<byte>, m: seq<byte>): (r: (seq<byte>, Block))
  {
    ModeIsSound(aes);
    var s := Begun(aes, key, iv, ad);
    (Encrypted(ModeOf(aes), s, m), Tag(aes, Absorbed(ModeOf(aes), s, m), |ad|, |m|))
  }

  /** Associated data first, then the message; the tag is that of the state after both. */
  lemma SealedIs(aes: Round, key: Wide, iv: Wide, ad: seq<byte>, m: seq<byte>)
    ensures Sound(ModeOf(aes))
    ensures var d := ModeOf(aes);
            var s := Absorbed(d, Initial(aes, key, iv), ad);
            && d.rate == 16 && Sealed(aes, key, iv, ad, m).0 == Encrypted(d, s, m)
            && Sealed(aes, key, iv, ad, m).1 == Tag(aes, Absorbed(d, s, m), |ad|, |m|)
            && (forall r :: d.stream(r) == Stream(r))
            && (forall r, b :: |b| == d.rate ==> d.absorb(r, b) == Updated(aes, r, b))
  {
    hide Absorbed, Encrypted, Tag, Initial, Updated, Stream;
    ModeIsSound(aes);
  }

  datatype Opening = Rejected | Accepted(m: seq<byte>)

  function Opened(aes: Round, key: Wide, iv: Wide, ad: seq<byte>, c: seq<byte>, mac: Block): Opening {
    ModeIsSound(aes);
    var s := Begun(aes, key, iv, ad);
    var m := Decrypted(ModeOf(aes), s, c);
    if mac == Tag(aes, Absorbed(ModeOf(aes), s, m), |ad|, |m|) then Accepted(m) else Rejected
  }

  /** Decryption accepts what encryption produced, restores the message, and accepts nothing else for it. */
  lemma RoundTrip(aes: Round, key: Wide, iv: Wide, ad: seq<byte>, m: seq<byte>, mac: Block)
    ensures var (c, t) := Sealed(aes, key, iv, ad, m);
            Opened(aes, key, iv, ad, c, mac) == if mac == t then Accepted(m) else Rejected
  {
    hide Begun, Tag, Absorbed;
    ModeIsSound(aes);
    DecryptedEncrypted(ModeOf(aes), Begun(aes, key, iv, ad), m);
  }

  // -------------------------------------------------------------- tail

  /** The keystream, in the order the instructions run. */
  lemma StreamParts(x: Block, s: Regs)
    ensures X(X(X(X(x, s.s5), s.s4), s.s1), A(s.s2, s.s3)) == X(x, Stream(s))
  {
    hide XorAll, AndAll;
    XorAllAssociative(x, s.s5, s.s4);
    XorAllAssociative(x, X(s.s5, s.s4), s.s1);
    XorAllAssociative(x, X(X(s.s5, s.s4), s.s1), A(s.s2, s.s3));
  }

  /** Adding to register 0 after an update is absorbing the sum: the fix-up. */
  lemma PatchAbsorbs(aes: Round, s: Regs, data: seq<byte>, d: seq<byte>)
    requires |data| == |d| == 16
    ensures var t := Absorb(aes, s, data); t.(s0 := X(t.s0, d)) == Absorb(aes, s, XorAll(data, d))
  {
    hide Xor;
    XorAllAssociative(aes(s.s5, s.s0), data, d);
  }

  // ------------------------------------------------------ the registers

  class Registers {
    const state: array<Block>
    const aes: Round

    ghost predicate Valid() { state.Length == 6 }

    ghost function View(): Regs
      requires Valid()
      reads state
    {
      Regs(state[0], state[1], state[2], state[3], state[4], state[5])
    }

    constructor (aes: Round, key: Wide, iv: Wide)
      ensures Valid() && fresh(state) && this.aes == aes
      ensures View() == Initial(aes, key, iv)
    {
      hide XorAll, Updated, Xor;
      this.aes := aes;
      state := new Block[6](_ => C1());
      new;
      var k1: Block, k2: Block := key[..16], key[16..];
      var k3, k4 := X(k1, iv[..16]), X(k2, iv[16..]);
      state[0] := k3;
      state[1] := k4;
      state[2] := C1();
      state[3] := C2();
      state[4] := X(k1, C2());
      state[5] := X(k2, C1());
      ghost var start := View();
      for i := 0 to 4
        invariant View() == Rounds(aes, start, k1, k2, k3, k4, i)
      {
        Update(k1);
        Update(k2);
        Update(k3);
        Update(k4);
      }
    }

    method Update(data: Block)
      requires Valid()
      modifies state
      ensures View() == Updated(aes, old(View()), data)
    {
      hide XorAll;
      var tmp := aes(state[5], state[0]);
      state[5] := aes(state[4], state[5]);
      state[4] := aes(state[3], state[4]);
      state[3] := aes(state[2], state[3]);
      state[2] := aes(state[1], state[2]);
      state[1] := aes(state[0], state[1]);
      state[0] := X(tmp, data);
    }

    /** Encrypt one block and absorb it. */
    method Enc(src: seq<byte>) returns (dst: seq<byte>)
      requires Valid() && |src| == 16
      modifies state
      ensures dst == XorAll(src, Stream(old(View())))
      ensures View() == Absorb(aes, old(View()), src)
    {
      hide XorAll, AndAll, Updated, Stream;
      StreamParts(src, View());
      var tmp := X(src, state[5]);
      tmp := X(tmp, state[4]);
      tmp := X(tmp, state[1]);
      tmp := X(tmp, A(state[2], state[3]));
      dst := tmp;
      Update(src);
    }

    /** Decrypt one block and absorb the plaintext. */
    method Dec(src: seq<byte>) returns (dst: seq<byte>)
      requires Valid() && |src| == 16
      modifies state
      ensures dst == XorAll(src, Stream(old(View())))
      ensures View() == Absorb(aes, old(View()), dst)
    {
      hide XorAll, AndAll, Updated, Stream;
      StreamParts(src, View());
      var msg := X(src, state[5]);
      msg := X(msg, state[4]);
      msg := X(msg, state[1]);
      msg := X(msg, A(state[2], state[3]));
      dst := msg;
      Update(msg);
    }

    method Mac(mlen: nat, adlen: nat) returns (mac: Block)
      requires Valid()
      modifies state
      ensures mac == Tag(aes, old(View()), adlen, mlen)
    {
      hide XorAll, Updated, Lengths;
      ghost var s := View();
      var tmp := X(Lengths(adlen, mlen), state[3]);
      for i := 0 to 7
        invariant View() == Repeated(aes, s, tmp, i)
      {
        Update(tmp);
      }
      mac := X(state[5], state[4]);
      mac := X(mac, state[3]);
      mac := X(mac, state[2]);
      mac := X(mac, state[1]);
      mac := X(mac, state[0]);
    }

    method AbsorbAd(ad: seq<byte>)
      requires Valid()
      modifies state
      ensures View() == Absorbed(ModeOf(aes), old(View()), ad)
    {
      hide XorAll, Absorb, Stream, Absorbed, Encrypted;
      ModeIsSound(aes);
      ghost var d, s, n := ModeOf(aes), View(), 0;
      NoData(d, s);
      assert ad[..0] == [];
      var i := 0;
      while i + 16 <= |ad|
        invariant i <= |ad| && i == Times(n, 16)
        invariant View() == Absorbed(d, s, ad[..i])
      {
        OneMore(d, s, ad, i, i + 16, n);
        FullBlock(d, ad[i..i + 16]);
        var _ := Enc(ad[i..i + 16]);
        i, n := i + 16, n + 1;
      }
      if i < |ad| {
        OneMore(d, s, ad, i, |ad|, n);
        assert ad[i..|ad|] == ad[i..];
        var _ := Enc(ad[i..] + Zeros(16 - |ad[i..]|));
      }
      assert ad[..|ad|] == ad;
    }

    /** The message loop of encryption; `c` may be `m`. */
    method EncryptMessage(m: array<byte>, c: array<byte>)
      requires Valid() && m.Length == c.Length
      modifies state, c
      ensures Sound(ModeOf(aes))
      ensures c[..] == Encrypted(ModeOf(aes), old(View()), old(m[..]))
      ensures View() == Absorbed(ModeOf(aes), old(View()), old(m[..]))
    {
      hide *;
      ModeIsSound(aes);
      ghost var s, n, was := View(), 0, m[..];
      NoData(ModeOf(aes), s);
      NoBlocks(16);
      assert was[..0] == [] && c[..0] == [];
      var i := 0;
      while i + 16 <= m.Length
        invariant Valid() && i <= m.Length && i == Times(n, 16) && m[i..] == was[i..]
        invariant View() == Absorbed(ModeOf(aes), s, was[..i]) && c[..i] == Encrypted(ModeOf(aes), s, was[..i])
      {
        SameSlice(m, was, i, 16);
        ghost var tail := m[i + 16..];
        ghost var low, t := c[..i], View();
        var dst := Enc(m[i..i + 16]);
        CopyInto(c, i, dst);
        EncryptedStep(ModeOf(aes), s, was, i, i + 16, n, low, dst, t);
        assert c[..i + 16] == low + dst && m[i + 16..] == tail;
        i, n := i + 16, n + 1;
      }
      if i < m.Length {
        EncryptTail(m, c, i, s, was, n);
      }
      assert was[..m.Length] == was && c[..c.Length] == c[..];
    }

    /** The partial last block, zero-filled. */
    method EncryptTail(m: array<byte>, c: array<byte>, i: nat, ghost s: Regs, ghost was: seq<byte>, ghost n: nat)
      requires Valid() && Sound(ModeOf(aes)) && i < m.Length == c.Length == |was| && m.Length < i + 16
          && i == Times(n, 16)
      requires m[i..] == was[i..]
      requires View() == Absorbed(ModeOf(aes), s, was[..i]) && c[..i] == Encrypted(ModeOf(aes), s, was[..i])
      modifies state, c
      ensures View() == Absorbed(ModeOf(aes), s, was) && c[..] == Encrypted(ModeOf(aes), s, was)
    {
      hide *;
      ModeIsSound(aes);
      var r := m.Length - i;
      assert was[i..m.Length] == was[i..] && was[..m.Length] == was;
      ghost var low, t := c[..i], View();
      var dst := Enc(m[i..] + Zeros(16 - r));
      PrefixXor(was[i..], Zeros(16 - r), Stream(t));
      CopyInto(c, i, dst[..r]);
      EncryptedStep(ModeOf(aes), s, was, i, m.Length, n, low, dst[..r], t);
      assert c[..] == c[..i] + c[i..i + r];
    }

    /** The message loop of decryption, with the fix-up after a partial block; `m` may be `c`, and without a buffer
        the plaintext goes nowhere but into the registers. */
    method DecryptMessage(c: array<byte>, m: array?<byte>) returns (ghost plain: seq<byte>)
      requires Valid() && (m != null ==> m.Length == c.Length)
      modifies state, m
      ensures Sound(ModeOf(aes)) && plain == Decrypted(ModeOf(aes), old(View()), old(c[..]))
      ensures m != null ==> m[..] == plain
      ensures View() == Absorbed(ModeOf(aes), old(View()), plain)
    {
      hide *;
      ModeIsSound(aes);
      ghost var s, n, was := View(), 0, c[..];
      plain := [];
      NoData(ModeOf(aes), s);
      NoBlocks(16);
      assert was[..0] == [];
      var i := 0;
      while i + 16 <= c.Length
        invariant Valid() && i <= c.Length && i == Times(n, 16) && c[i..] == was[i..]
        invariant |plain| == i && (m != null ==> m[..i] == plain)
        invariant View() == Absorbed(ModeOf(aes), s, plain) && was[..i] == Encrypted(ModeOf(aes), s, plain)
      {
        SameSlice(c, was, i, 16);
        ghost var tail := c[i + 16..];
        ghost var t := View();
        var dst := Dec(c[i..i + 16]);
        DecryptedStep(ModeOf(aes), s, was, i, i + 16, n, plain, dst, t);
        if m != null {
          CopyInto(m, i, dst);
          assert m[..i + 16] == m[..i] + m[i..i + 16];
        }
        assert c[i + 16..] == tail;
        i, n, plain := i + 16, n + 1, plain + dst;
      }
      assert was[..c.Length] == was;
      if i < c.Length {
        plain := DecryptTail(c, m, i, s, was, n, plain);
      } else if m != null {
        assert m[..m.Length] == m[..];
      }
      DecryptedEncrypted(ModeOf(aes), s, plain);
    }

    /** The partial last block: zero-filled, decoded, and the keystream tail taken out again. */
    method DecryptTail(c: array<byte>, m: array?<byte>, i: nat, ghost s: Regs, ghost was: seq<byte>, ghost n: nat,
                       ghost low: seq<byte>)
      returns (ghost plain: seq<byte>)
      requires Valid() && Sound(ModeOf(aes)) && i < c.Length == |was| && c.Length < i + 16 && i == Times(n, 16)
      requires c[i..] == was[i..] && |low| == i && (m != null ==> m.Length == c.Length && m[..i] == low)
      requires View() == Absorbed(ModeOf(aes), s, low) && was[..i] == Encrypted(ModeOf(aes), s, low)
      modifies state, m
      ensures View() == Absorbed(ModeOf(aes), s, plain) && was == Encrypted(ModeOf(aes), s, plain)
      ensures m != null ==> m[..] == plain
    {
      hide *;
      ModeIsSound(aes);
      var r := c.Length - i;
      assert was[i..c.Length] == was[i..] && was[..c.Length] == was;
      ghost var t := View();
      var dst := Dec(c[i..] + Zeros(16 - r));
      TailCancels(was[i..], Stream(t), r);
      DecryptedStep(ModeOf(aes), s, was, i, c.Length, n, low, dst[..r], t);
      plain := low + dst[..r];
      if m != null {
        CopyInto(m, i, dst[..r]);
        assert m[..] == m[..i] + m[i..i + r];
      }
      PatchAbsorbs(aes, t, dst, Zeros(r) + dst[r..]);
      dst := Zeros(r) + dst[r..];
      FixUp(dst);
    }

    /** Register 0 takes the keystream tail. */
    method FixUp(dst: seq<byte>)
      requires Valid() && |dst| == 16
      modifies state
      ensures View() == old(View()).(s0 := X(old(View()).s0, dst))
    {
      hide XorAll;
      state[0] := X(state[0], dst);
    }
  }

  // ----------------------------------------------------- whole messages

  lemma SealedParts(aes: Round, key: Wide, iv: Wide, ad: seq<byte>, m: seq<byte>)
    ensures Sound(ModeOf(aes))
    ensures var s := Absorbed(ModeOf(aes), Initial(aes, key, iv), ad);
            Sealed(aes, key, iv, ad, m)
              == (Encrypted(ModeOf(aes), s, m), Tag(aes, Absorbed(ModeOf(aes), s, m), |ad|, |m|))
  {
    ModeIsSound(aes);
  }

  lemma OpenedParts(aes: Round, key: Wide, iv: Wide, ad: seq<byte>, c: seq<byte>, mac: Block)
    ensures Sound(ModeOf(aes))
    ensures var s := Absorbed(ModeOf(aes), Initial(aes, key, iv), ad);
            var m := Decrypted(ModeOf(aes), s, c);
            Opened(aes, key, iv, ad, c, mac)
            == if mac == Tag(aes, Absorbed(ModeOf(aes), s, m), |ad|, |m|) then Accepted(m) else Rejected
  {
    ModeIsSound(aes);
  }

  method EncryptDetached(aes: Round, c: array<byte>, mac: array<byte>, m: array<byte>, ad: seq<byte>, npub: Wide,
                         k: Wide)
    requires c.Length == m.Length && mac.Length == 16 && mac != c
    modifies c, mac
    ensures (c[..], mac[..]) == Sealed(aes, k, npub, ad, old(m[..]))
  {
    hide *;
    SealedParts(aes, k, npub, ad, m[..]);
    ghost var was := m[..];
    var regs := new Registers(aes, k, npub);
    regs.AbsorbAd(ad);
    regs.EncryptMessage(m, c);
    var t := regs.Mac(m.Length, |ad|);
    ghost var sealed := c[..];
    CopyInto(mac, 0, t);
    assert c[..] == sealed && mac[..] == mac[0..0 + 16];
  }

  /** Accepted exactly when the tag is right; otherwise the output, if any, is all zeros. */
  method DecryptDetached(aes: Round, m: array?<byte>, c: array<byte>, mac: Block, ad: seq<byte>, npub: Wide, k: Wide)
    returns (accepted: bool)
    requires m != null ==> m.Length == c.Length
    modifies m
    ensures accepted <==> Opened(aes, k, npub, ad, old(c[..]), mac).Accepted?
    ensures m != null && accepted ==> m[..] == Opened(aes, k, npub, ad, old(c[..]), mac).m
    ensures m != null && !accepted ==> m[..] == Zeros(m.Length)
  {
    hide *;
    OpenedParts(aes, k, npub, ad, c[..], mac);
    var regs := new Registers(aes, k, npub);
    regs.AbsorbAd(ad);
    ghost var plain := regs.DecryptMessage(c, m);
    var computed := regs.Mac(c.Length, |ad|);
    var differ := Limbs.Memcmp(computed, mac);
    if m != null && differ != 0 {
      CopyInto(m, 0, Zeros(m.Length));
      assert m[..] == m[0..0 + m.Length];
    }
    accepted := differ == 0;
  }
}
