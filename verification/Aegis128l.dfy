/**
 AEGIS-128L with AES-NI: eight registers updated in place, 32 bytes per step. The AES
 round instruction is a parameter.
 */
module Aegis128l {
  import opened Machine
  import opened Bytes
  import opened Duplex
  import Limbs

  type Block = s: seq<byte> | |s| == 16 witness Zeros(16)
  datatype Regs = Regs(s0: Block, s1: Block, s2: Block, s3: Block, s4: Block, s5: Block, s6: Block, s7: Block)

  /** `_mm_aesenc_si128`. */
  type Round = (Block, Block) -> Block

  function X(a: Block, b: Block): Block { XorAll(a, b) }
  function A(a: Block, b: Block): Block { AndAll(a, b) }

  // ------------------------------------------------------- specification

  function Updated(aes: Round, s: Regs, d1: Block, d2: Block): Regs {
    Regs(X(aes(s.s7, s.s0), d1), aes(s.s0, s.s1), aes(s.s1, s.s2), aes(s.s2, s.s3),
     X(aes(s.s3, s.s4), d2), aes(s.s4, s.s5), aes(s.s5, s.s6), aes(s.s6, s.s7))
  }

  /** In the AES round the key is added last. */
  ghost predicate KeyAddedLast(aes: Round) { forall x: Block, k: Block :: aes(x, k) == X(aes(x, Zeros(16)), k) }

  /** The state update as the specification of AEGIS has it: the message goes in with the round key. */
  lemma UpdatedIsAegis(aes: Round, s: Regs, m0: Block, m1: Block)
    requires KeyAddedLast(aes)
    ensures Updated(aes, s, m0, m1) ==
            Regs(aes(s.s7, X(s.s0, m0)), aes(s.s0, s.s1), aes(s.s1, s.s2), aes(s.s2, s.s3),
                 aes(s.s3, X(s.s4, m1)), aes(s.s4, s.s5), aes(s.s5, s.s6), aes(s.s6, s.s7))
  {
    hide XorAll;
    XorAllAssociative(aes(s.s7, Zeros(16)), s.s0, m0);
    XorAllAssociative(aes(s.s3, Zeros(16)), s.s4, m1);
    assert aes(s.s7, X(s.s0, m0)) == X(aes(s.s7, Zeros(16)), X(s.s0, m0));
    assert aes(s.s3, X(s.s4, m1)) == X(aes(s.s3, Zeros(16)), X(s.s4, m1));
  }

  /** The keystream of a state. */
  function Stream(s: Regs): (k: seq<byte>)
    ensures |k| == 32
  {
    X(X(s.s6, s.s1), A(s.s2, s.s3)) + X(X(s.s2, s.s5), A(s.s6, s.s7))
  }

  /** The keystream byte by byte. */
  lemma StreamIs(s: Regs, j: nat)
    requires j < 16
    ensures Stream(s)[j] == Xor(Xor(s.s6[j], s.s1[j]), And(s.s2[j], s.s3[j]))
    ensures Stream(s)[16 + j] == Xor(Xor(s.s2[j], s.s5[j]), And(s.s6[j], s.s7[j]))
  {
    hide Xor, And;
  }

  function Absorb(aes: Round, s: Regs, data: seq<byte>): Regs {
    if |data| == 32 then Updated(aes, s, data[..16], data[16..]) else s
  }

  function ModeOf(aes: Round): Mode<Regs> {
    Mode(32, Stream, (s: Regs, data: seq<byte>) => Absorb(aes, s, data))
  }

  lemma ModeIsSound(aes: Round)
    ensures Sound(ModeOf(aes)) && ModeOf(aes).rate == 32
    ensures forall s :: ModeOf(aes).stream(s) == Stream(s)
    ensures forall s, data :: ModeOf(aes).absorb(s, data) == Absorb(aes, s, data)
  {
    hide Stream, Absorb;
  }

  function C1(): Block {
    [0xdb, 0x3d, 0x18, 0x55, 0x6d, 0xc2, 0x2f, 0xf1, 0x20, 0x11, 0x31, 0x42, 0x73, 0xb5, 0x28, 0xdd]
  }

  function C2(): Block {
    [0x00, 0x01, 0x01, 0x02, 0x03, 0x05, 0x08, 0x0d, 0x15, 0x22, 0x37, 0x59, 0x90, 0xe9, 0x79, 0x62]
  }

  /** The constants are the Fibonacci numbers modulo 256. */
  lemma Fibonacci()
    ensures C2()[0] == 0 && C2()[1] == 1
    ensures C1()[0] == Next(C2()[14], C2()[15]) && C1()[1] == Next(C2()[15], C1()[0])
    ensures forall i :: 2 <= i < 16 ==> C2()[i] == Next(C2()[i - 2], C2()[i - 1])
    ensures forall i :: 2 <= i < 16 ==> C1()[i] == Next(C1()[i - 2], C1()[i - 1])
  {
    var a, b := C2(), C1();
    forall i | 2 <= i < 16 ensures a[i] == Next(a[i - 2], a[i - 1]) && b[i] == Next(b[i - 2], b[i - 1]) {
    }
  }

  function Next(x: byte, y: byte): byte { (x as int + y as int) % 256 }

  function Repeated(aes: Round, s: Regs, d1: Block, d2: Block, n: nat): Regs {
    if n == 0 then s else Updated(aes, Repeated(aes, s, d1, d2, n - 1), d1, d2)
  }

  function Initial(aes: Round, key: Block, iv: Block): Regs {
    var k2 := X(key, iv);
    Repeated(aes, Regs(k2, C1(), C2(), C1(), k2, X(key, C2()), X(key, C1()), X(key, C2())), key, k2, 10)
  }

  /** The ten states of the initialisation, from the first one on. */
  lemma InitialIs(aes: Round, key: Block, iv: Block, t: seq<Regs>)
    requires |t| == 11
    requires t[0] == Regs(X(key, iv), C1(), C2(), C1(), X(key, iv), X(key, C2()), X(key, C1()), X(key, C2()))
    requires forall i :: 0 <= i < 10 ==> t[i + 1] == Updated(aes, t[i], key, X(key, iv))
    ensures Initial(aes, key, iv) == t[10]
  {
    hide Updated, XorAll, C1, C2;
    RepeatedIs(aes, key, X(key, iv), t, 10);
  }

  lemma {:induction false} RepeatedIs(aes: Round, d1: Block, d2: Block, t: seq<Regs>, n: nat)
    requires n < |t| && forall i :: 0 <= i < n ==> t[i + 1] == Updated(aes, t[i], d1, d2)
    ensures Repeated(aes, t[0], d1, d2, n) == t[n]
  {
    hide Updated;
    if n > 0 {
      RepeatedIs(aes, d1, d2, t, n - 1);
    }
  }

  /** Bit lengths of the associated data and the message, as two 64-bit words. */
  function Lengths(adlen: nat, mlen: nat): Block {
    Little(Wrap64(adlen * 8), 8) + Little(Wrap64(mlen * 8), 8)
  }

  /** The bit length of the associated data comes first, then that of the message, in 64 bits each. */
  lemma LengthsAre(adlen: nat, mlen: nat)
    requires 8 * adlen < U64 && 8 * mlen < U64
    ensures Value(Lengths(adlen, mlen)[..8]) == 8 * adlen && Value(Lengths(adlen, mlen)[8..]) == 8 * mlen
  {
    hide Value, Little;
    EightBytes();
    ValueLittle(8 * adlen, 8);
    ValueLittle(8 * mlen, 8);
    assert Lengths(adlen, mlen)[..8] == Little(8 * adlen, 8) && Lengths(adlen, mlen)[8..] == Little(8 * mlen, 8);
  }

  lemma EightBytes()
    ensures Pow256(8) == U64
  {
    assert Pow256(4) == 256 * Pow256(3) && Pow256(3) == 256 * Pow256(2) && Pow256(2) == 0x1_0000;
    assert Pow256(8) == 256 * Pow256(7) && Pow256(7) == 256 * Pow256(6);
    assert Pow256(6) == 256 * Pow256(5) && Pow256(5) == 256 * Pow256(4);
  }

  function Tag(aes: Round, s: Regs, adlen: nat, mlen: nat): Block {
    var t := X(Lengths(adlen, mlen), s.s2);
    var f := Repeated(aes, s, t, t, 7);
    X(X(X(X(X(X(f.s6, f.s5), f.s4), f.s3), f.s2), f.s1), f.s0)
  }

  /** The tag: seven updates with the lengths added to register 2, then the sum of registers 0 to 6. */
  lemma TagIs(aes: Round, adlen: nat, mlen: nat, t: seq<Regs>, j: nat)
    requires |t| == 8 && j < 16
    requires forall i :: 0 <= i < 7 ==>
        t[i + 1] == Updated(aes, t[i], X(Lengths(adlen, mlen), t[0].s2), X(Lengths(adlen, mlen), t[0].s2))
    ensures var f := t[7];
            Tag(aes, t[0], adlen, mlen)[j] ==
            Xor(Xor(Xor(Xor(Xor(Xor(f.s6[j], f.s5[j]), f.s4[j]), f.s3[j]), f.s2[j]), f.s1[j]), f.s0[j])
  {
    hide Updated, Xor, Lengths, Repeated;
    RepeatedIs(aes, X(Lengths(adlen, mlen), t[0].s2), X(Lengths(adlen, mlen), t[0].s2), t, 7);
  }

  /** The state before the message. */
  function Begun(aes: Round, key: Block, iv: Block, ad: seq<byte>): Regs {
    Absorbed(ModeOf(aes), Initial(aes, key, iv), ad)
  }

  function Sealed(aes: Round, key: Block, iv: Block, ad: seq<byte>, m: seq<byte>): (r: (seq<byte>, Block))
  {
    ModeIsSound(aes);
    var s := Begun(aes, key, iv, ad);
    (Encrypted(ModeOf(aes), s, m), Tag(aes, Absorbed(ModeOf(aes), s, m), |ad|, |m|))
  }

  /** Associated data first, then the message; the tag is that of the state after both. */
  lemma SealedIs(aes: Round, key: Block, iv: Block, ad: seq<byte>, m: seq<byte>)
    ensures Sound(ModeOf(aes))
    ensures var d := ModeOf(aes);
            var s := Absorbed(d, Initial(aes, key, iv), ad);
            && d.rate == 32 && Sealed(aes, key, iv, ad, m).0 == Encrypted(d, s, m)
            && Sealed(aes, key, iv, ad, m).1 == Tag(aes, Absorbed(d, s, m), |ad|, |m|)
            && (forall r :: d.stream(r) == Stream(r))
            && (forall r, b :: |b| == d.rate ==> d.absorb(r, b) == Updated(aes, r, b[..16], b[16..]))
  {
    hide Absorbed, Encrypted, Tag, Initial, Updated, Stream;
    ModeIsSound(aes);
  }

  datatype Opening = Rejected | Accepted(m: seq<byte>)

  function Opened(aes: Round, key: Block, iv: Block, ad: seq<byte>, c: seq<byte>, mac: Block): Opening {
    ModeIsSound(aes);
    var s := Begun(aes, key, iv, ad);
    var m := Decrypted(ModeOf(aes), s, c);
    if mac == Tag(aes, Absorbed(ModeOf(aes), s, m), |ad|, |m|) then Accepted(m) else Rejected
  }

  /** Decryption accepts what encryption produced, restores the message, and accepts nothing else for it. */
  lemma RoundTrip(aes: Round, key: Block, iv: Block, ad: seq<byte>, m: seq<byte>, mac: Block)
    ensures var (c, t) := Sealed(aes, key, iv, ad, m);
            Opened(aes, key, iv, ad, c, mac) == if mac == t then Accepted(m) else Rejected
  {
    hide Begun, Tag, Absorbed;
    ModeIsSound(aes);
    DecryptedEncrypted(ModeOf(aes), Begun(aes, key, iv, ad), m);
  }

  // -------------------------------------------------------------- tail

  /** The keystream the decoder XORs, in the order the instructions run. */
  lemma StreamParts(x: Block, s: Regs)
    ensures X(X(X(x, s.s6), s.s1), A(s.s2, s.s3)) == X(x, X(X(s.s6, s.s1), A(s.s2, s.s3)))
    ensures X(X(X(x, s.s2), s.s5), A(s.s6, s.s7)) == X(x, X(X(s.s2, s.s5), A(s.s6, s.s7)))
  {
    hide XorAll, AndAll;
    XorAllAssociative(x, s.s6, s.s1);
    XorAllAssociative(x, X(s.s6, s.s1), A(s.s2, s.s3));
    XorAllAssociative(x, s.s2, s.s5);
    XorAllAssociative(x, X(s.s2, s.s5), A(s.s6, s.s7));
  }

  lemma HalvesXor(a: seq<byte>, k: seq<byte>)
    requires |a| == |k| == 32
    ensures X(a[..16], k[..16]) + X(a[16..], k[16..]) == XorAll(a, k)
  {
    hide Xor;
  }

  /** Adding to registers 0 and 4 after an update is absorbing the sum: the fix-up. */
  lemma PatchAbsorbs(aes: Round, s: Regs, data: seq<byte>, d: seq<byte>)
    requires |data| == |d| == 32
    ensures var t := Absorb(aes, s, data);
            t.(s0 := X(t.s0, d[..16]), s4 := X(t.s4, d[16..])) == Absorb(aes, s, XorAll(data, d))
  {
    hide Xor;
    XorAllAssociative(aes(s.s7, s.s0), data[..16], d[..16]);
    XorAllAssociative(aes(s.s3, s.s4), data[16..], d[16..]);
    assert X(data[..16], d[..16]) == XorAll(data, d)[..16] && X(data[16..], d[16..]) == XorAll(data, d)[16..];
  }

  // ------------------------------------------------------ the registers

  class Registers {
    const state: array<Block>
    const aes: Round

    ghost predicate Valid() { state.Length == 8 }

    ghost function View(): Regs
      requires Valid()
      reads state
    {
      Regs(state[0], state[1], state[2], state[3], state[4], state[5], state[6], state[7])
    }

    constructor (aes: Round, key: Block, iv: Block)
      ensures Valid() && fresh(state) && this.aes == aes
      ensures View() == Initial(aes, key, iv)
    {
      this.aes := aes;
      state := new Block[8](_ => C1());
      new;
      var k1, k2 := key, X(key, iv);
      state[0] := k2;
      state[1] := C1();
      state[2] := C2();
      state[3] := C1();
      state[4] := k2;
      state[5] := X(k1, C2());
      state[6] := X(k1, C1());
      state[7] := X(k1, C2());
      ghost var start := View();
      for i := 0 to 10
        invariant View() == Repeated(aes, start, k1, k2, i)
      {
        Update(k1, k2);
      }
    }

    method Update(d1: Block, d2: Block)
      requires Valid()
      modifies state
      ensures View() == Updated(aes, old(View()), d1, d2)
    {
      hide XorAll;
      var tmp := state[7];
      state[7] := aes(state[6], state[7]);
      state[6] := aes(state[5], state[6]);
      state[5] := aes(state[4], state[5]);
      state[4] := aes(state[3], state[4]);
      state[3] := aes(state[2], state[3]);
      state[2] := aes(state[1], state[2]);
      state[1] := aes(state[0], state[1]);
      state[0] := aes(tmp, state[0]);
      state[0] := X(state[0], d1);
      state[4] := X(state[4], d2);
    }

    /** Encrypt one block and absorb it. */
    method Enc(src: seq<byte>) returns (dst: seq<byte>)
      requires Valid() && |src| == 32
      modifies state
      ensures dst == XorAll(src, Stream(old(View())))
      ensures View() == Absorb(aes, old(View()), src)
    {
      hide XorAll, AndAll, Updated;
      var msg0, msg1 := src[..16], src[16..];
      StreamParts(msg0, View());
      StreamParts(msg1, View());
      HalvesXor(src, Stream(View()));
      var tmp0: seq<byte> := X(X(msg0, state[6]), state[1]);
      var tmp1: seq<byte> := X(X(msg1, state[2]), state[5]);
      tmp0 := X(tmp0, A(state[2], state[3]));
      tmp1 := X(tmp1, A(state[6], state[7]));
      dst := tmp0 + tmp1;
      Update(msg0, msg1);
    }

    /** Decrypt one block and absorb the plaintext. */
    method Dec(src: seq<byte>) returns (dst: seq<byte>)
      requires Valid() && |src| == 32
      modifies state
      ensures dst == XorAll(src, Stream(old(View())))
      ensures View() == Absorb(aes, old(View()), dst)
    {
      hide XorAll, AndAll, Updated;
      var msg0: seq<byte>, msg1: seq<byte> := src[..16], src[16..];
      StreamParts(msg0, View());
      StreamParts(msg1, View());
      HalvesXor(src, Stream(View()));
      msg0 := X(X(msg0, state[6]), state[1]);
      msg1 := X(X(msg1, state[2]), state[5]);
      msg0 := X(msg0, A(state[2], state[3]));
      msg1 := X(msg1, A(state[6], state[7]));
      dst := msg0 + msg1;
      Update(msg0, msg1);
    }

    method Mac(mlen: nat, adlen: nat) returns (mac: Block)
      requires Valid()
      modifies state
      ensures mac == Tag(aes, old(View()), adlen, mlen)
    {
      hide XorAll, Updated, Lengths;
      ghost var s := View();
      var tmp := X(Lengths(adlen, mlen), state[2]);
      for i := 0 to 7
        invariant View() == Repeated(aes, s, tmp, tmp, i)
      {
        Update(tmp, tmp);
      }
      mac := X(state[6], state[5]);
      mac := X(mac, state[4]);
      mac := X(mac, state[3]);
      mac := X(mac, state[2]);
      mac := X(mac, state[1]);
      mac := X(mac, state[0]);
    }

    method AbsorbAd(ad: seq<byte>)
      requires Valid()
      modifies state
      ensures View() == Absorbed(ModeOf(aes), old(View()), ad)
    {
      hide XorAll, Absorb, Stream, Absorbed, Encrypted;
      ModeIsSound(aes);
      ghost var d, s, n := ModeOf(aes), View(), 0;
      NoData(d, s);
      assert ad[..0] == [];
      var i := 0;
      while i + 32 <= |ad|
        invariant i <= |ad| && i == Times(n, 32)
        invariant View() == Absorbed(d, s, ad[..i])
      {
        OneMore(d, s, ad, i, i + 32, n);
        FullBlock(d, ad[i..i + 32]);
        var _ := Enc(ad[i..i + 32]);
        i, n := i + 32, n + 1;
      }
      if i < |ad| {
        OneMore(d, s, ad, i, |ad|, n);
        assert ad[i..|ad|] == ad[i..];
        var _ := Enc(ad[i..] + Zeros(32 - |ad[i..]|));
      }
      assert ad[..|ad|] == ad;
    }

    /** The message loop of encryption; `c` may be `m`. */
    method EncryptMessage(m: array<byte>, c: array<byte>)
      requires Valid() && m.Length == c.Length
      modifies state, c
      ensures Sound(ModeOf(aes))
      ensures c[..] == Encrypted(ModeOf(aes), old(View()), old(m[..]))
      ensures View() == Absorbed(ModeOf(aes), old(View()), old(m[..]))
    {
      hide *;
      ModeIsSound(aes);
      ghost var s, n, was := View(), 0, m[..];
      NoData(ModeOf(aes), s);
      NoBlocks(32);
      assert was[..0] == [] && c[..0] == [];
      var i := 0;
      while i + 32 <= m.Length
        invariant Valid() && i <= m.Length && i == Times(n, 32) && m[i..] == was[i..]
        invariant View() == Absorbed(ModeOf(aes), s, was[..i]) && c[..i] == Encrypted(ModeOf(aes), s, was[..i])
      {
        SameSlice(m, was, i, 32);
        ghost var tail := m[i + 32..];
        ghost var low, t := c[..i], View();
        var dst := Enc(m[i..i + 32]);
        CopyInto(c, i, dst);
        EncryptedStep(ModeOf(aes), s, was, i, i + 32, n, low, dst, t);
        assert c[..i + 32] == low + dst && m[i + 32..] == tail;
        i, n := i + 32, n + 1;
      }
      if i < m.Length {
        EncryptTail(m, c, i, s, was, n);
      }
      assert was[..m.Length] == was && c[..c.Length] == c[..];
    }

    /** The partial last block, zero-filled. */
    method EncryptTail(m: array<byte>, c: array<byte>, i: nat, ghost s: Regs, ghost was: seq<byte>, ghost n: nat)
      requires Valid() && Sound(ModeOf(aes)) && i < m.Length == c.Length == |was| && m.Length < i + 32
          && i == Times(n, 32)
      requires m[i..] == was[i..]
      requires View() == Absorbed(ModeOf(aes), s, was[..i]) && c[..i] == Encrypted(ModeOf(aes), s, was[..i])
      modifies state, c
      ensures View() == Absorbed(ModeOf(aes), s, was) && c[..] == Encrypted(ModeOf(aes), s, was)
    {
      hide *;
      ModeIsSound(aes);
      var r := m.Length - i;
      assert was[i..m.Length] == was[i..] && was[..m.Length] == was;
      ghost var low, t := c[..i], View();
      var dst := Enc(m[i..] + Zeros(32 - r));
      PrefixXor(was[i..], Zeros(32 - r), Stream(t));
      CopyInto(c, i, dst[..r]);
      EncryptedStep(ModeOf(aes), s, was, i, m.Length, n, low, dst[..r], t);
      assert c[..] == c[..i] + c[i..i + r];
    }

    /** The message loop of decryption, with the fix-up after a partial block; `m` may be `c`, and without a buffer
        the plaintext goes nowhere but into the registers. */
    method DecryptMessage(c: array<byte>, m: array?<byte>) returns (ghost plain: seq<byte>)
      requires Valid() && (m != null ==> m.Length == c.Length)
      modifies state, m
      ensures Sound(ModeOf(aes)) && plain == Decrypted(ModeOf(aes), old(View()), old(c[..]))
      ensures m != null ==> m[..] == plain
      ensures View() == Absorbed(ModeOf(aes), old(View()), plain)
    {
      hide *;
      ModeIsSound(aes);
      ghost var s, n, was := View(), 0, c[..];
      plain := [];
      NoData(ModeOf(aes), s);
      NoBlocks(32);
      assert was[..0] == [];
      var i := 0;
      while i + 32 <= c.Length
        invariant Valid() && i <= c.Length && i == Times(n, 32) && c[i..] == was[i..]
        invariant |plain| == i && (m != null ==> m[..i] == plain)
        invariant View() == Absorbed(ModeOf(aes), s, plain) && was[..i] == Encrypted(ModeOf(aes), s, plain)
      {
        SameSlice(c, was, i, 32);
        ghost var tail := c[i + 32..];
        ghost var t := View();
        var dst := Dec(c[i..i + 32]);
        DecryptedStep(ModeOf(aes), s, was, i, i + 32, n, plain, dst, t);
        if m != null {
          CopyInto(m, i, dst);
          assert m[..i + 32] == m[..i] + m[i..i + 32];
        }
        assert c[i + 32..] == tail;
        i, n, plain := i + 32, n + 1, plain + dst;
      }
      assert was[..c.Length] == was;
      if i < c.Length {
        plain := DecryptTail(c, m, i, s, was, n, plain);
      } else if m != null {
        assert m[..m.Length] == m[..];
      }
      DecryptedEncrypted(ModeOf(aes), s, plain);
    }

    /** The partial last block: zero-filled, decoded, and the keystream tail taken out again. */
    method DecryptTail(c: array<byte>, m: array?<byte>, i: nat, ghost s: Regs, ghost was: seq<byte>, ghost n: nat,
                       ghost low: seq<byte>)
      returns (ghost plain: seq<byte>)
      requires Valid() && Sound(ModeOf(aes)) && i < c.Length == |was| && c.Length < i + 32 && i == Times(n, 32)
      requires c[i..] == was[i..] && |low| == i && (m != null ==> m.Length == c.Length && m[..i] == low)
      requires View() == Absorbed(ModeOf(aes), s, low) && was[..i] == Encrypted(ModeOf(aes), s, low)
      modifies state, m
      ensures View() == Absorbed(ModeOf(aes), s, plain) && was == Encrypted(ModeOf(aes), s, plain)
      ensures m != null ==> m[..] == plain
    {
      hide *;
      ModeIsSound(aes);
      var r := c.Length - i;
      assert was[i..c.Length] == was[i..] && was[..c.Length] == was;
      ghost var t := View();
      var dst := Dec(c[i..] + Zeros(32 - r));
      TailCancels(was[i..], Stream(t), r);
      DecryptedStep(ModeOf(aes), s, was, i, c.Length, n, low, dst[..r], t);
      plain := low + dst[..r];
      if m != null {
        CopyInto(m, i, dst[..r]);
        assert m[..] == m[..i] + m[i..i + r];
      }
      PatchAbsorbs(aes, t, dst, Zeros(r) + dst[r..]);
      dst := Zeros(r) + dst[r..];
      FixUp(dst);
    }

    /** Registers 0 and 4 take the two halves of the keystream tail. */
    method FixUp(dst: seq<byte>)
      requires Valid() && |dst| == 32
      modifies state
      ensures View() == old(View()).(s0 := X(old(View()).s0, dst[..16]), s4 := X(old(View()).s4, dst[16..]))
    {
      hide XorAll;
      state[0] := X(state[0], dst[..16]);
      state[4] := X(state[4], dst[16..]);
    }
  }

  // ----------------------------------------------------- whole messages

  lemma SealedParts(aes: Round, key: Block, iv: Block, ad: seq<byte>, m: seq<byte>)
    ensures Sound(ModeOf(aes))
    ensures var s := Absorbed(ModeOf(aes), Initial(aes, key, iv), ad);
            Sealed(aes, key, iv, ad, m)
              == (Encrypted(ModeOf(aes), s, m), Tag(aes, Absorbed(ModeOf(aes), s, m), |ad|, |m|))
  {
    ModeIsSound(aes);
  }

  lemma OpenedParts(aes: Round, key: Block, iv: Block, ad: seq<byte>, c: seq<byte>, mac: Block)
    ensures Sound(ModeOf(aes))
    ensures var s := Absorbed(ModeOf(aes), Initial(aes, key, iv), ad);
            var m := Decrypted(ModeOf(aes), s, c);
            Opened(aes, key, iv, ad, c, mac)
            == if mac == Tag(aes, Absorbed(ModeOf(aes), s, m), |ad|, |m|) then Accepted(m) else Rejected
  {
    ModeIsSound(aes);
  }

  method EncryptDetached(aes: Round, c: array<byte>, mac: array<byte>, m: array<byte>, ad: seq<byte>, npub: Block,
                         k: Block)
    requires c.Length == m.Length && mac.Length == 16 && mac != c
    modifies c, mac
    ensures (c[..], mac[..]) == Sealed(aes, k, npub, ad, old(m[..]))
  {
    hide *;
    SealedParts(aes, k, npub, ad, m[..]);
    ghost var was := m[..];
    var regs := new Registers(aes, k, npub);
    regs.AbsorbAd(ad);
    regs.EncryptMessage(m, c);
    var t := regs.Mac(m.Length, |ad|);
    ghost var sealed := c[..];
    CopyInto(mac, 0, t);
    assert c[..] == sealed && mac[..] == mac[0..0 + 16];
  }

  /** Accepted exactly when the tag is right; otherwise the output, if any, is all zeros. */
  method DecryptDetached(aes: Round, m: array?<byte>, c: array<byte>, mac: Block, ad: seq<byte>, npub: Block, k: Block)
    returns (accepted: bool)
    requires m != null ==> m.Length == c.Length
    modifies m
    ensures accepted <==> Opened(aes, k, npub, ad, old(c[..]), mac).Accepted?
    ensures m != null && accepted ==> m[..] == Opened(aes, k, npub, ad, old(c[..]), mac).m
    ensures m != null && !accepted ==> m[..] == Zeros(m.Length)
  {
    hide *;
    OpenedParts(aes, k, npub, ad, c[..], mac);
    var regs := new Registers(aes, k, npub);
    regs.AbsorbAd(ad);
    ghost var plain := regs.DecryptMessage(c, m);
    var computed := regs.Mac(c.Length, |ad|);
    var differ := Limbs.Memcmp(computed, mac);
    if m != null && differ != 0 {
      CopyInto(m, 0, Zeros(m.Length));
      assert m[..] == m[0..0 + m.Length];
    }
    accepted := differ == 0;
  }
}
