/**
 AES256-GCM over AES-NI: the encryption and decryption loops, with the associated data
 hashed four blocks at a time, the message eight, and the remainder block by block.
 The block cipher under the expanded key is a parameter; a byte is its eight bits from
 the most significant one.
 */
module AesGcm {
  import opened Gf128
  import opened Ghash
  import opened GhashCode
  import opened Machine
  import Bytes

  type Byte = b: Bits | |b| == 8 witness seq(8, _ => false)
  type Cipher = Elem -> Elem

  /** What a call reports; `Faulted` is a store through a null pointer. */
  datatype Status = Aborted | Rejected | Accepted | Faulted

  /** Largest message: the 32-bit block counter starts at 2. */
  const MESSAGEBYTES_MAX: int := 16 * (0x1_0000_0000 - 2)

  // ------------------------------------------------------ bytes and blocks

  function Load(b: seq<Byte>): (e: Elem)
    requires |b| == 16
    ensures forall j :: 0 <= j < 128 ==> e[j] == b[j / 8][j % 8]
  {
    seq(128, j requires 0 <= j < 128 => b[j / 8][j % 8])
  }

  function ByteAt(e: Elem, i: nat): Byte
    requires i < 16
  {
    e[8 * i..8 * i + 8]
  }

  function Store(e: Elem): (b: seq<Byte>)
    ensures |b| == 16 && forall i :: 0 <= i < 16 ==> b[i] == ByteAt(e, i)
  {
    seq(16, i requires 0 <= i < 16 => ByteAt(e, i))
  }

  lemma LoadStore(e: Elem)
    ensures Load(Store(e)) == e
  {
    forall j | 0 <= j < 128 ensures Load(Store(e))[j] == e[j] {
      assert e[j] == e[8 * (j / 8)..8 * (j / 8) + 8][j % 8];
    }
  }

  lemma StoreLoad(b: seq<Byte>)
    requires |b| == 16
    ensures Store(Load(b)) == b
  {
    forall i | 0 <= i < 16 ensures ByteAt(Load(b), i) == b[i] {
      forall k | 0 <= k < 8 ensures ByteAt(Load(b), i)[k] == b[i][k] {
        assert (8 * i + k) / 8 == i && (8 * i + k) % 8 == k;
      }
    }
  }

  function ZeroByte(): Byte { Zeros(8) }

  /** A block of at most 16 bytes, zero-filled. */
  function Padded(data: seq<Byte>): (p: seq<Byte>)
    requires |data| <= 16
    ensures |p| == 16
  {
    data + seq(16 - |data|, _ => ZeroByte())
  }

  /** The data cut into blocks, the last one zero-filled. */
  function Blocks(data: seq<Byte>): seq<Elem> {
    if data == [] then []
    else if |data| <= 16 then [Load(Padded(data))]
    else [Load(data[..16])] + Blocks(data[16..])
  }

  lemma {:induction false} BlocksConcat(a: seq<Byte>, b: seq<Byte>)
    requires |a| % 16 == 0
    ensures Blocks(a + b) == Blocks(a) + Blocks(b)
    decreases |a|
  {
    hide Load;
    if a == [] {
      assert a + b == b;
    } else {
      assert (a + b)[..16] == a[..16] && (a + b)[16..] == a[16..] + b;
      BlocksConcat(a[16..], b);
      FullFirst(a);
      if |a + b| == 16 {
        assert a + b == a;
      }
    }
  }

  lemma FullFirst(a: seq<Byte>)
    requires |a| >= 16
    ensures Blocks(a) == [Load(a[..16])] + Blocks(a[16..])
  {
    hide Load;
    if |a| == 16 {
      assert Padded(a) == a && a[..16] == a && a[16..] == [];
    }
  }

  // --------------------------------------------------------------- counter

  /** The lowest `k` bits of a number, most significant first. */
  function BitsOf(v: nat, k: nat): (b: Bits)
    ensures |b| == k
  {
    if k == 0 then [] else BitsOf(v / 2, k - 1) + [v % 2 == 1]
  }

  function ByteOf(v: nat): Byte { BitsOf(v, 8) }

  /** The four bytes of a word in memory order, lowest first. */
  function WordBytes(n: u32): (b: seq<Byte>)
    ensures |b| == 4
  {
    [ByteOf(n % 256), ByteOf(n / 0x100 % 256), ByteOf(n / 0x1_0000 % 256), ByteOf(n / 0x100_0000)]
  }

  /** The shuffle `pt` reverses the last word, which makes the counter big-endian. */
  function CounterBlock(npub: seq<Byte>, n: u32): Elem
    requires |npub| == 12
  {
    var w := WordBytes(n);
    Load(npub + [w[3], w[2], w[1], w[0]])
  }

  /** The block whose encryption masks the tag: the word 0x01000000 stored without the shuffle. */
  function TagCounter(npub: seq<Byte>): Elem
    requires |npub| == 12
  {
    Load(npub + WordBytes(0x0100_0000))
  }

  lemma TagCounterIsOne(npub: seq<Byte>)
    requires |npub| == 12
    ensures TagCounter(npub) == CounterBlock(npub, 1)
  {
    hide Load, ByteOf;
    assert WordBytes(0x0100_0000) == [ByteOf(0), ByteOf(0), ByteOf(0), ByteOf(1)];
    assert WordBytes(1) == [ByteOf(1), ByteOf(0), ByteOf(0), ByteOf(0)];
  }

  lemma {:induction false} BitsInjective(v: nat, w: nat, k: nat)
    requires v < Bytes.Pow2(k) && w < Bytes.Pow2(k) && BitsOf(v, k) == BitsOf(w, k)
    ensures v == w
  {
    if k > 0 {
      var a, b := BitsOf(v, k), BitsOf(w, k);
      assert a[..k - 1] == BitsOf(v / 2, k - 1) && b[..k - 1] == BitsOf(w / 2, k - 1);
      assert a[k - 1] == b[k - 1];
      BitsInjective(v / 2, w / 2, k - 1);
    }
  }

  lemma ByteOfInjective(v: nat, w: nat)
    requires v < 256 && w < 256 && ByteOf(v) == ByteOf(w)
    ensures v == w
  {
    hide BitsOf;
    assert Bytes.Pow2(8) == 2 * Bytes.Pow2(7) && Bytes.Pow2(7) == 2 * Bytes.Pow2(6)
        && Bytes.Pow2(6) == 2 * Bytes.Pow2(5) && Bytes.Pow2(5) == 32;
    BitsInjective(v, w, 8);
  }

  /** Different counter values give different blocks. */
  lemma CounterBlockInjective(npub: seq<Byte>, n: u32, n': u32)
    requires |npub| == 12 && CounterBlock(npub, n) == CounterBlock(npub, n')
    ensures n == n'
  {
    hide Load, ByteOf;
    var w, w' := WordBytes(n), WordBytes(n');
    var b, b' := npub + [w[3], w[2], w[1], w[0]], npub + [w'[3], w'[2], w'[1], w'[0]];
    StoreLoad(b);
    StoreLoad(b');
    assert b[12] == w[3] && b[13] == w[2] && b[14] == w[1] && b[15] == w[0];
    assert b'[12] == w'[3] && b'[13] == w'[2] && b'[14] == w'[1] && b'[15] == w'[0];
    ByteOfInjective(n % 256, n' % 256);
    ByteOfInjective(n / 0x100 % 256, n' / 0x100 % 256);
    ByteOfInjective(n / 0x1_0000 % 256, n' / 0x1_0000 % 256);
    ByteOfInjective(n / 0x100_0000, n' / 0x100_0000);
    Split(n);
    Split(n');
  }

  lemma Split(n: u32)
    ensures n == n % 256 + 256 * (n / 0x100 % 256) + 0x1_0000 * (n / 0x1_0000 % 256) + 0x100_0000 * (n / 0x100_0000)
  {
    var q1 := n / 256;
    var q2 := q1 / 256;
    var q3 := q2 / 256;
    DivModUnique(q2, q1 % 256 * 256 + n % 256, 0x1_0000);
    DivModUnique(q3, q2 % 256 * 0x1_0000 + q1 % 256 * 256 + n % 256, 0x100_0000);
  }

  /** Within the length limit no data block reuses a counter block, and none uses the tag's. */
  lemma CountersDistinct(npub: seq<Byte>, mlen: nat, i: nat, j: nat)
    requires |npub| == 12 && mlen <= MESSAGEBYTES_MAX && i < mlen && j < mlen
    ensures CounterBlock(npub, Wrap32(2 + i / 16)) != TagCounter(npub)
    ensures CounterBlock(npub, Wrap32(2 + i / 16)) == CounterBlock(npub, Wrap32(2 + j / 16)) <==> i / 16 == j / 16
  {
    hide CounterBlock, TagCounter;
    TagCounterIsOne(npub);
    var a, b := Wrap32(2 + i / 16), Wrap32(2 + j / 16);
    assert a == 2 + i / 16 && b == 2 + j / 16;
    if CounterBlock(npub, a) == CounterBlock(npub, 1) {
      CounterBlockInjective(npub, a, 1);
    }
    if CounterBlock(npub, a) == CounterBlock(npub, b) {
      CounterBlockInjective(npub, a, b);
    }
  }

  // -------------------------------------------------------- specification

  function KeyBlock(cipher: Cipher, npub: seq<Byte>, n: u32): (k: seq<Byte>)
    requires |npub| == 12
    ensures |k| == 16
  {
    Store(cipher(CounterBlock(npub, n)))
  }

  /** Byte `i` of the keystream: counter mode starting at 2. */
  function KeyByte(cipher: Cipher, npub: seq<Byte>, i: nat): Byte
    requires |npub| == 12
  {
    KeyBlock(cipher, npub, Wrap32(2 + i / 16))[i % 16]
  }

  function Crypt(cipher: Cipher, npub: seq<Byte>, data: seq<Byte>): (r: seq<Byte>)
    requires |npub| == 12
    ensures |r| == |data|
    ensures forall i :: 0 <= i < |data| ==> r[i] == Xor(data[i], KeyByte(cipher, npub, i))
  {
    seq(|data|, i requires 0 <= i < |data| => Xor(data[i], KeyByte(cipher, npub, i)))
  }

  /** Section 6.5 of SP 800-38D: block i of the data is masked with the encryption of counter 2 + i, and a last
      incomplete block with as many of its leading bits. */
  lemma CryptIsStandard(cipher: Cipher, npub: seq<Byte>, m: seq<Byte>, i: nat, j: nat)
    requires |npub| == 12 && j < 16 && 16 * i + j < |m|
    ensures Crypt(cipher, npub, m)[16 * i + j]
            == Xor(m[16 * i + j], cipher(CounterBlock(npub, Wrap32(2 + i)))[8 * j..8 * j + 8])
    ensures 16 * i + 16 <= |m| ==>
              Load(Crypt(cipher, npub, m)[16 * i..16 * i + 16])
              == Xor(Load(m[16 * i..16 * i + 16]), cipher(CounterBlock(npub, Wrap32(2 + i))))
  {
    hide CounterBlock, Load, Xor, Wrap32;
    MaskedByte(cipher, npub, m, i, j);
    if 16 * i + 16 <= |m| {
      var k := cipher(CounterBlock(npub, Wrap32(2 + i)));
      var c, d := Crypt(cipher, npub, m)[16 * i..16 * i + 16], m[16 * i..16 * i + 16];
      forall b | 0 <= b < 16 ensures c[b] == Xor(d[b], k[8 * b..8 * b + 8]) {
        MaskedByte(cipher, npub, m, i, b);
      }
      LoadMasked(c, d, k);
    }
  }

  lemma MaskedByte(cipher: Cipher, npub: seq<Byte>, m: seq<Byte>, i: nat, j: nat)
    requires |npub| == 12 && j < 16 && 16 * i + j < |m|
    ensures Crypt(cipher, npub, m)[16 * i + j]
            == Xor(m[16 * i + j], cipher(CounterBlock(npub, Wrap32(2 + i)))[8 * j..8 * j + 8])
  {
    hide CounterBlock, Xor, Wrap32;
    DivModUnique(i, j, 16);
    assert i * 16 + j == 16 * i + j;
  }

  lemma LoadMasked(c: seq<Byte>, d: seq<Byte>, k: Elem)
    requires |c| == |d| == 16 && forall b :: 0 <= b < 16 ==> c[b] == Xor(d[b], k[8 * b..8 * b + 8])
    ensures Load(c) == Xor(Load(d), k)
  {
    var e, s := Load(c), Xor(Load(d), k);
    forall x | 0 <= x < 128 ensures e[x] == s[x] {
      assert c[x / 8] == Xor(d[x / 8], k[8 * (x / 8)..8 * (x / 8) + 8]);
      assert 8 * (x / 8) + x % 8 == x;
    }
  }

  /** A byte-swapped 64-bit word in memory order: highest byte first. */
  function SwappedWord(n: u64): (b: seq<Byte>)
    ensures |b| == 8
  {
    BigEndian(n, 8)
  }

  function BigEndian(n: nat, k: nat): (b: seq<Byte>)
    ensures |b| == k
  {
    if k == 0 then [] else BigEndian(n / 256, k - 1) + [ByteOf(n)]
  }

  /** `fb`: the bit lengths, byte-swapped, in one block. */
  function LengthBlock(adlen: nat, mlen: nat): Elem {
    Load(SwappedWord(Wrap64(8 * adlen)) + SwappedWord(Wrap64(8 * mlen)))
  }

  /** The authentication value of section 7.1 of SP 800-38D, steps 4 to 6. */
  function TagOf(cipher: Cipher, npub: seq<Byte>, ad: seq<Byte>, c: seq<Byte>): (t: seq<Byte>)
    requires |npub| == 12
    ensures |t| == 16
  {
    var h := cipher(Zeros(128));
    var s := Hash(h, Zeros(128), Blocks(ad) + Blocks(c) + [LengthBlock(|ad|, |c|)]);
    Store(Xor(cipher(CounterBlock(npub, 1)), s))
  }

  /** Decrypting restores the message. */
  lemma CryptTwice(cipher: Cipher, npub: seq<Byte>, m: seq<Byte>)
    requires |npub| == 12
    ensures Crypt(cipher, npub, Crypt(cipher, npub, m)) == m
  {
    hide KeyByte, Xor;
    var c := Crypt(cipher, npub, m);
    forall i | 0 <= i < |m| ensures Crypt(cipher, npub, c)[i] == m[i] {
      var k := KeyByte(cipher, npub, i);
      XorAssociative(m[i], k, k);
      XorZero(k);
      XorZero(m[i]);
    }
  }

  /** The length block is [len(A)]64 || [len(C)]64. */
  lemma LengthBlockIsStandard(adlen: nat, mlen: nat)
    requires 8 * adlen < U64 && 8 * mlen < U64
    ensures LengthBlock(adlen, mlen) == BitsOf(8 * adlen, 64) + BitsOf(8 * mlen, 64)
  {
    hide Load, BigEndian, BitsOf;
    var a, b := BigEndian(8 * adlen, 8), BigEndian(8 * mlen, 8);
    BigEndianBits(8 * adlen, 8);
    BigEndianBits(8 * mlen, 8);
    var e, s := Load(a + b), BitsOf(8 * adlen, 64) + BitsOf(8 * mlen, 64);
    forall j | 0 <= j < 128 ensures e[j] == s[j] {
      if j < 64 {
        assert (a + b)[j / 8] == a[j / 8];
      } else {
        assert (a + b)[j / 8] == b[j / 8 - 8] && j / 8 - 8 == (j - 64) / 8 && j % 8 == (j - 64) % 8;
      }
    }
  }

  lemma {:induction false} BigEndianBits(n: nat, k: nat)
    ensures forall j :: 0 <= j < 8 * k ==> BigEndian(n, k)[j / 8][j % 8] == BitsOf(n, 8 * k)[j]
  {
    if k > 0 {
      BitsAppend(n, 8 * k - 8);
      BigEndianBits(n / 256, k - 1);
      forall j | 0 <= j < 8 * k ensures BigEndian(n, k)[j / 8][j % 8] == BitsOf(n, 8 * k)[j] {
        hide BitsOf;
        if j / 8 == k - 1 {
          assert j % 8 == j - (8 * k - 8);
        }
      }
    }
  }

  /** The counter block is the nonce and the 32-bit big-endian counter. */
  lemma CounterBlockIsStandard(npub: seq<Byte>, n: u32)
    requires |npub| == 12
    ensures forall i :: 0 <= i < 12 ==> ByteAt(CounterBlock(npub, n), i) == npub[i]
    ensures CounterBlock(npub, n)[96..] == BitsOf(n, 32)
  {
    hide BigEndian, BitsOf, WordBytes;
    var w, b := WordBytes(n), BigEndian(n, 4);
    WordIsBigEndian(n);
    BigEndianBits(n, 4);
    var e := CounterBlock(npub, n);
    assert Store(e) == npub + b by { StoreLoad(npub + b); }
    forall j | 0 <= j < 32 ensures e[96 + j] == BitsOf(n, 32)[j] {
      assert (npub + b)[(96 + j) / 8] == b[j / 8] && (96 + j) % 8 == j % 8;
    }
  }

  lemma WordIsBigEndian(n: u32)
    ensures var w := WordBytes(n); BigEndian(n, 4) == [w[3], w[2], w[1], w[0]]
  {
    hide ByteOf;
    LowByte(n);
    LowByte(n / 0x100);
    LowByte(n / 0x1_0000);
    assert n / 0x100 / 0x100 == n / 0x1_0000 && n / 0x1_0000 / 0x100 == n / 0x100_0000;
    BigEndianStep(n, 3);
    BigEndianStep(n / 0x100, 2);
    BigEndianStep(n / 0x1_0000, 1);
    BigEndianStep(n / 0x100_0000, 0);
  }

  lemma BigEndianStep(n: nat, k: nat)
    ensures BigEndian(n, k + 1) == BigEndian(n / 256, k) + [ByteOf(n)] && BigEndian(n, 0) == []
  {
  }

  lemma LowByte(n: nat)
    ensures ByteOf(n % 256) == ByteOf(n)
  {
    Bytes.EightBits();
    BitsOfLow(n, 8);
  }

  lemma BitsOfStep(v: nat, k: nat)
    requires k > 0
    ensures BitsOf(v, k) == BitsOf(v / 2, k - 1) + [v % 2 == 1]
  {
  }

  lemma LowBitAndRest(v: nat, k: nat)
    requires k > 0
    ensures var w := v % Bytes.Pow2(k); w / 2 == v / 2 % Bytes.Pow2(k - 1) && w % 2 == v % 2
  {
    var p := Bytes.Pow2(k - 1);
    assert Bytes.Pow2(k) == 2 * p;
    DoubleRemainder(v, p);
    DivModUnique(v / 2 % p, v % 2, 2);
  }

  lemma {:induction false} BitsOfLow(v: nat, k: nat)
    ensures BitsOf(v % Bytes.Pow2(k), k) == BitsOf(v, k)
  {
    if k > 0 {
      BitsOfLow(v / 2, k - 1);
      LowBitAndRest(v, k);
      hide Bytes.Pow2, BitsOf;
      BitsOfStep(v, k);
      BitsOfStep(v % Bytes.Pow2(k), k);
    }
  }

  /** Zero bytes up to a whole number of blocks. */
  function Filler(n: nat): (z: seq<Byte>)
    ensures (n + |z|) % 16 == 0 && |z| < 16
  {
    seq((16 - n % 16) % 16, _ => ZeroByte())
  }

  function Filled(a: seq<Byte>): (r: seq<Byte>)
    ensures |r| % 16 == 0
  {
    a + Filler(|a|)
  }

  lemma ShortFilled(a: seq<Byte>)
    requires 0 < |a| <= 16
    ensures Filled(a) == Padded(a) && Blocks(Padded(a)) == [Load(Padded(a))]
  {
    hide Load;
    assert Padded(Padded(a)) == Padded(a);
  }

  lemma SameFiller(n: nat)
    requires n > 16
    ensures Filler(n) == Filler(n - 16)
  {
    DivModUnique(n / 16 - 1, n % 16, 16);
    EuclidBounds(n, 16);
    assert (n - 16) % 16 == n % 16;
  }

  lemma DropFront(a: seq<Byte>, z: seq<Byte>)
    requires |a| >= 16
    ensures (a + z)[..16] == a[..16] && (a + z)[16..] == a[16..] + z
  {
  }

  lemma LongFilled(a: seq<Byte>)
    requires |a| > 16
    ensures Filled(a)[..16] == a[..16] && Filled(a)[16..] == Filled(a[16..])
  {
    hide Filler;
    SameFiller(|a|);
    DropFront(a, Filler(|a|));
  }

  lemma {:induction false} BlocksFilled(a: seq<Byte>)
    ensures Blocks(Filled(a)) == Blocks(a)
    decreases |a|
  {
    if a == [] {
      assert Filled(a) == [];
    } else if |a| <= 16 {
      ShortFilled(a);
    } else {
      BlocksFilled(a[16..]);
      LongFilled(a);
      hide Load, Filled, Padded;
      FullFirst(Filled(a));
      FullFirst(a);
    }
  }

  lemma ThreeWhole(a: seq<Byte>, b: seq<Byte>, l: seq<Byte>)
    requires |a| % 16 == 0 && |b| % 16 == 0
    ensures Blocks(a + b + l) == Blocks(a) + Blocks(b) + Blocks(l)
  {
    hide Load, Blocks, Padded;
    BlocksConcat(a, b);
    BlocksConcat(a + b, l);
  }

  lemma AllAtOnce(ad: seq<Byte>, c: seq<Byte>, e: Elem)
    ensures Blocks(Filled(ad) + Filled(c) + Store(e)) == Blocks(ad) + Blocks(c) + [e]
  {
    hide Load, Store, Blocks, Filled;
    BlocksFilled(ad);
    BlocksFilled(c);
    ThreeWhole(Filled(ad), Filled(c), Store(e));
    OneBlock(e);
  }

  /** Sections 6.4 and 7.1 of SP 800-38D: the tag is the encryption of counter 1 added to GHASH, under the encryption of
      the zero block, of A and C, each filled with zeros, [len(A)]64 and [len(C)]64. */
  lemma TagIsStandard(cipher: Cipher, npub: seq<Byte>, ad: seq<Byte>, c: seq<Byte>)
    requires |npub| == 12 && 8 * |ad| < U64 && 8 * |c| < U64
    ensures var lengths := Store(BitsOf(8 * |ad|, 64) + BitsOf(8 * |c|, 64));
            var s := Hash(cipher(Zeros(128)), Zeros(128), Blocks(Filled(ad) + Filled(c) + lengths));
            Load(TagOf(cipher, npub, ad, c)) == Xor(cipher(CounterBlock(npub, 1)), s)
  {
    hide Load, Store, BitsOf, Hash, CounterBlock, LengthBlock, Xor, Blocks, TagOf, Filled;
    LengthBlockIsStandard(|ad|, |c|);
    AllAtOnce(ad, c, LengthBlock(|ad|, |c|));
    TagLoaded(cipher, npub, ad, c);
  }

  lemma OneBlock(e: Elem)
    ensures Blocks(Store(e)) == [e]
  {
    LoadStore(e);
    assert Padded(Store(e)) == Store(e);
  }

  lemma TagLoaded(cipher: Cipher, npub: seq<Byte>, ad: seq<Byte>, c: seq<Byte>)
    requires |npub| == 12
    ensures var s := Hash(cipher(Zeros(128)), Zeros(128), Blocks(ad) + Blocks(c) + [LengthBlock(|ad|, |c|)]);
            Load(TagOf(cipher, npub, ad, c)) == Xor(cipher(CounterBlock(npub, 1)), s)
  {
    hide Load, Store, Hash, CounterBlock, LengthBlock, Blocks, Xor;
    LoadStore(Xor(cipher(CounterBlock(npub, 1)),
              Hash(cipher(Zeros(128)), Zeros(128), Blocks(ad) + Blocks(c) + [LengthBlock(|ad|, |c|)])));
  }

  lemma BitExamples()
    ensures BitsOf(5, 4) == [false, true, false, true] && ByteOf(0x80) == [true] + Zeros(7)
  {
    assert BitsOf(1, 2) == [false, true] && BitsOf(2, 3) == [false, true, false];
    BitsOfPower(7);
    assert Bytes.Pow2(7) == 0x80 by { Bytes.EightBits(); }
  }

  lemma {:induction false} BitsOfPower(k: nat)
    ensures BitsOf(Bytes.Pow2(k), k + 1) == [true] + Zeros(k)
  {
    if k > 0 {
      BitsOfPower(k - 1);
      assert [true] + Zeros(k) == [true] + Zeros(k - 1) + [false];
    } else {
      assert BitsOf(0, 0) == [];
    }
  }

  lemma BitsAppend(n: nat, k: nat)
    ensures BitsOf(n, k + 8) == BitsOf(n / 256, k) + ByteOf(n)
  {
    hide BitsOf;
    BitsSplit(n, k, 8);
    HalvedTwice(n, 6);
    HalvedTwice(n / 4, 4);
    HalvedTwice(n / 4 / 4, 2);
    HalvedTwice(n / 4 / 4 / 4, 0);
  }

  lemma HalvedTwice(n: nat, b: nat)
    ensures Halved(n, b + 2) == Halved(n / 4, b)
  {
    assert Halved(n / 2, b + 1) == Halved(n / 2 / 2, b);
  }

  function Halved(n: nat, b: nat): nat { if b == 0 then n else Halved(n / 2, b - 1) }

  lemma BitsStep(n: nat, k: nat)
    requires k > 0
    ensures BitsOf(n, k) == BitsOf(n / 2, k - 1) + [n % 2 == 1]
  {
  }

  lemma NoBits(n: nat)
    ensures BitsOf(n, 0) == [] && Halved(n, 0) == n
  {
  }

  lemma {:induction false} BitsSplit(n: nat, k: nat, b: nat)
    ensures BitsOf(n, k + b) == BitsOf(Halved(n, b), k) + BitsOf(n, b)
    decreases b
  {
    hide BitsOf;
    if b == 0 {
      NoBits(n);
      assert BitsOf(n, k) + [] == BitsOf(n, k);
    } else {
      BitsSplit(n / 2, k, b - 1);
      BitsStep(n, k + b);
      BitsStep(n, b);
      var x, y, z := BitsOf(Halved(n, b), k), BitsOf(n / 2, b - 1), [n % 2 == 1];
      assert (x + y) + z == x + (y + z);
    }
  }

  // ---------------------------------------------------------- hash loops

  lemma HashExtend(h: Elem, y: Elem, data: seq<Byte>, i: nat, j: nat)
    requires i % 16 == 0 && i <= j <= |data|
    ensures Hash(h, y, Blocks(data[..j])) == Hash(h, Hash(h, y, Blocks(data[..i])), Blocks(data[i..j]))
  {
    hide Hash, Blocks;
    assert data[..j] == data[..i] + data[i..j];
    BlocksConcat(data[..i], data[i..j]);
    HashConcat(h, y, Blocks(data[..i]), Blocks(data[i..j]));
  }

  /** The block at byte offset `off`. */
  function BlockAt(data: seq<Byte>, off: nat): Elem
    requires off + 16 <= |data|
  {
    Load(data[off..off + 16])
  }

  function Quarter(data: seq<Byte>, k: nat): Elem
    requires 16 * k + 16 <= |data|
  {
    BlockAt(data, 16 * k)
  }

  lemma BlockAtSlice(data: seq<Byte>, i: nat, j: nat, off: nat)
    requires i <= j <= |data| && off + 16 <= j - i
    ensures BlockAt(data[i..j], off) == BlockAt(data, i + off)
  {
    hide Load;
    var a, b := data[i..j][off..off + 16], data[i + off..i + off + 16];
    forall k | 0 <= k < 16 ensures a[k] == b[k] {
      assert a[k] == data[i..j][off + k] == data[i + off + k];
    }
    assert a == b;
  }

  lemma {:induction false} FullBlocks(data: seq<Byte>, n: nat)
    requires |data| == 16 * n
    ensures |Blocks(data)| == n
    ensures forall k :: 0 <= k < n ==> Blocks(data)[k] == Quarter(data, k)
  {
    hide Load, Blocks;
    if n == 0 {
      NoBlocks();
      assert data == [];
    } else {
      FullFirst(data);
      FullBlocks(data[16..], n - 1);
      forall k | 0 < k < n ensures Blocks(data)[k] == Quarter(data, k) {
        assert data[16..][16 * (k - 1)..16 * (k - 1) + 16] == data[16 * k..16 * k + 16];
        assert Quarter(data[16..], k - 1) == Quarter(data, k);
      }
    }
  }

  lemma NoBlocks()
    ensures Blocks([]) == []
  {
  }

  lemma {:induction false} ReversedAt(xs: seq<Elem>, k: nat)
    requires k < |xs|
    ensures Reversed(xs)[k] == xs[|xs| - 1 - k]
    decreases |xs|
  {
    if k < |xs| - 1 {
      ReversedAt(xs[1..], k);
    }
  }

  /** The aggregated update on `n` full blocks, last block first. */
  lemma ManyOnData(h: Elem, acc: Elem, data: seq<Byte>, xs: seq<Elem>, n: nat)
    requires 0 < n && |data| == 16 * n && |xs| == n
    requires forall k :: 0 <= k < n ==> xs[k] == Quarter(data, n - 1 - k)
    ensures AddMulReduceMany(Powers(h, n), xs, acc) == Hash(h, acc, Blocks(data))
  {
    hide Blocks, Hash, Powers, AddMulReduceMany, Quarter, Reversed;
    FullBlocks(data, n);
    var blocks := Blocks(data);
    forall k | 0 <= k < n ensures Reversed(blocks)[k] == xs[k] {
      ReversedAt(blocks, k);
    }
    assert Reversed(blocks) == xs;
    ManyIsHash(h, acc, blocks);
  }

  /** `addmulreduce` on up to 16 bytes. */
  method AddMulReducePart(acc: Elem, a: seq<Byte>, xlen: nat, h: Elem) returns (r: Elem)
    requires xlen <= 16 && xlen <= |a|
    ensures r == Hash(h, acc, [Load(Padded(a[..xlen]))])
  {
    hide Load, AddMulReduce, Hash;
    var x;
    if xlen >= 16 {
      x := Load(a[..16]);
      assert a[..16] == Padded(a[..xlen]);
    } else {
      var padded := new Byte[16](_ => ZeroByte());
      for i := 0 to xlen
        invariant forall k :: 0 <= k < 16 ==> padded[k] == if k < i then a[k] else ZeroByte()
      {
        padded[i] := a[i];
      }
      x := Load(padded[..]);
      assert padded[..] == Padded(a[..xlen]);
    }
    r := AddMulReduce(acc, x, h);
    AddMulReduceIsStep(acc, x, h);
  }

  /** The remainder loops. */
  method HashRemainder(acc: Elem, data: seq<Byte>, h: Elem) returns (r: Elem)
    ensures r == Hash(h, acc, Blocks(data))
  {
    hide Hash, Load;
    r := acc;
    var j := 0;
    assert data[..0] == [];
    HashNone(h, acc);
    while j < |data|
      invariant j % 16 == 0
      invariant r == Hash(h, acc, Blocks(data[..Smaller(j, |data|)]))
    {
      var bl := 16;
      if j + bl >= |data| {
        bl := |data| - j;
      }
      HashExtend(h, acc, data, j, j + bl);
      assert Blocks(data[j..j + bl]) == [Load(Padded(data[j..][..bl]))] by {
        assert data[j..][..bl] == data[j..j + bl];
      }
      r := AddMulReducePart(r, data[j..], bl, h);
      j := j + 16;
    }
    assert data[..|data|] == data;
  }

  function Smaller(a: nat, b: nat): nat { if a < b then a else b }

  lemma HashNone(h: Elem, acc: Elem)
    ensures Hash(h, acc, Blocks([])) == acc
  {
  }

  /** The eight powers of H, chained as the code does. */
  function PowerTable(h: Elem): (p: seq<Elem>)
    ensures |p| == 8
  {
    var h2 := Mulv(h, h);
    var h3 := Mulv(h2, h);
    var h4 := Mulv(h3, h);
    var h5 := Mulv(h4, h);
    var h6 := Mulv(h5, h);
    var h7 := Mulv(h6, h);
    [h, h2, h3, h4, h5, h6, h7, Mulv(h7, h)]
  }

  lemma PowerTableIsPowers(h: Elem)
    ensures PowerTable(h) == Powers(h, 8) && PowerTable(h)[..4] == Powers(h, 4)
  {
    hide Mulv;
    var p := PowerTable(h);
    assert Powers(h, 2) == p[..2];
    assert Powers(h, 3) == p[..3];
    assert Powers(h, 4) == p[..4];
    assert Powers(h, 5) == p[..5];
    assert Powers(h, 6) == p[..6];
    assert Powers(h, 7) == p[..7];
    assert Powers(h, 8) == p;
  }

  /** The operands of the 4-way step, the last block first. */
  function Last4(data: seq<Byte>, i: nat): (xs: seq<Elem>)
    requires i + 64 <= |data|
    ensures |xs| == 4
  {
    [BlockAt(data, i + 48), BlockAt(data, i + 32), BlockAt(data, i + 16), BlockAt(data, i)]
  }

  lemma FourOnData(h: Elem, acc: Elem, ad: seq<Byte>, i: nat)
    requires i + 64 <= |ad|
    ensures AddMulReduceMany(Powers(h, 4), Last4(ad, i), acc) == Hash(h, acc, Blocks(ad[i..i + 64]))
  {
    hide Hash, Blocks, BlockAt, AddMulReduceMany, Powers;
    var chunk := ad[i..i + 64];
    BlockAtSlice(ad, i, i + 64, 0);
    BlockAtSlice(ad, i, i + 64, 16);
    BlockAtSlice(ad, i, i + 64, 32);
    BlockAtSlice(ad, i, i + 64, 48);
    ManyOnData(h, acc, chunk, Last4(ad, i), 4);
  }

  /** `n & ~63`. */
  function Round64(n: nat): (r: nat)
    ensures r <= n < r + 64
  {
    64 * (n / 64)
  }

  lemma Aligned64(n: nat)
    ensures Round64(n) % 16 == 0
  {
    DivModUnique(4 * (n / 64), 0, 16);
  }

  lemma Step64(i: nat, n: nat)
    requires i % 64 == 0 && i < Round64(n)
    ensures i + 64 <= Round64(n) && (i + 64) % 64 == 0 && i % 16 == 0
  {
    var a, b := i / 64, n / 64;
    assert i == 64 * a;
    assert a < b;
    DivModUnique(a + 1, 0, 64);
    DivModUnique(4 * a, 0, 16);
  }

  /** The associated data: four blocks at a time, then the remainder loop. */
  method HashAd(ad: seq<Byte>, h: Elem, powers: seq<Elem>) returns (accum: Elem)
    requires powers == Powers(h, 4)
    ensures accum == Hash(h, Zeros(128), Blocks(ad))
  {
    hide *;
    var rounded := Round64(|ad|);
    accum := Zeros(128);
    var i := 0;
    assert ad[..0] == [];
    HashNone(h, Zeros(128));
    while i < rounded
      invariant i % 64 == 0 && i <= rounded <= |ad|
      invariant accum == Hash(h, Zeros(128), Blocks(ad[..i]))
    {
      Step64(i, |ad|);
      FourOnData(h, accum, ad, i);
      HashExtend(h, Zeros(128), ad, i, i + 64);
      accum := AddMulReduceMany(powers, Last4(ad, i), accum);
      i := i + 64;
    }
    Aligned64(|ad|);
    HashExtend(h, Zeros(128), ad, i, |ad|);
    accum := HashRemainder(accum, ad[i..], h);
    assert ad[..|ad|] == ad && ad[i..|ad|] == ad[i..];
  }
}
