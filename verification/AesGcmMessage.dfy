/**
 Encryption and decryption of a message with AES256-GCM: eight blocks at a time, then
 the remainder, in place or into another buffer.
 */
module AesGcmMessage {
  import opened Gf128
  import opened Ghash
  import opened Machine
  import opened AesGcm

  /** Byte `j` of the keystream that starts with counter `n`. */
  function StreamByte(cipher: Cipher, npub: seq<Byte>, n: u32, j: nat): Byte
    requires |npub| == 12
  {
    KeyBlock(cipher, npub, Wrap32(n as int + j / 16))[j % 16]
  }

  /** `aesni_encrypt8`: eight keystream blocks from counter `n`. */
  function Batch(cipher: Cipher, npub: seq<Byte>, n: u32): (k: seq<Byte>)
    requires |npub| == 12
    ensures |k| == 128 && forall j :: 0 <= j < 128 ==> k[j] == StreamByte(cipher, npub, n, j)
  {
    seq(128, j requires 0 <= j => StreamByte(cipher, npub, n, j))
  }

  /** The counter word when `i` bytes have been processed. */
  function CounterAt(i: nat): u32 { Wrap32(2 + i / 16) }

  lemma WrapAdd(a: nat, b: nat)
    ensures Wrap32(Wrap32(a) as int + b) == Wrap32(a + b)
  {
  }

  lemma NextBatch(i: nat)
    requires i % 128 == 0
    ensures i % 16 == 0 && Wrap32(CounterAt(i) as int + 8) == CounterAt(i + 128)
  {
    hide Wrap32;
    var q := i / 128;
    assert i == 8 * q * 16 && i + 128 == (8 * q + 8) * 16;
    DivModUnique(8 * q, 0, 16);
    DivModUnique(8 * q + 8, 0, 16);
    WrapAdd(2 + i / 16, 8);
  }

  lemma BatchIsStream(cipher: Cipher, npub: seq<Byte>, i: nat)
    requires |npub| == 12 && i % 128 == 0
    ensures forall j :: 0 <= j < 128 ==> Batch(cipher, npub, CounterAt(i))[j] == KeyByte(cipher, npub, i + j)
    ensures Wrap32(CounterAt(i) as int + 8) == CounterAt(i + 128)
  {
    hide StreamByte, KeyByte, Batch, Wrap32, CounterAt;
    NextBatch(i);
    forall j | 0 <= j < 128 ensures Batch(cipher, npub, CounterAt(i))[j] == KeyByte(cipher, npub, i + j) {
      StreamIsKey(cipher, npub, i, j);
    }
  }

  lemma StreamIsKey(cipher: Cipher, npub: seq<Byte>, i: nat, j: nat)
    requires |npub| == 12 && i % 16 == 0
    ensures StreamByte(cipher, npub, CounterAt(i), j) == KeyByte(cipher, npub, i + j)
  {
    hide KeyBlock, Wrap32;
    WrapAdd(2 + i / 16, j / 16);
    OffsetInBlock(i, j);
  }

  lemma OffsetInBlock(i: nat, j: nat)
    requires i % 16 == 0
    ensures (i + j) / 16 == i / 16 + j / 16 && (i + j) % 16 == j % 16
  {
    DivModUnique(i / 16 + j / 16, j % 16, 16);
  }

  /** The operands of the 8-way step, the last block first. */
  function Last8(data: seq<Byte>, i: nat): (xs: seq<Elem>)
    requires i + 128 <= |data|
    ensures |xs| == 8
  {
    [BlockAt(data, i + 112), BlockAt(data, i + 96), BlockAt(data, i + 80), BlockAt(data, i + 64),
     BlockAt(data, i + 48), BlockAt(data, i + 32), BlockAt(data, i + 16), BlockAt(data, i)]
  }

  lemma EightOnData(h: Elem, acc: Elem, data: seq<Byte>, i: nat)
    requires i + 128 <= |data|
    ensures AddMulReduceMany(PowerTable(h), Last8(data, i), acc) == Hash(h, acc, Blocks(data[i..i + 128]))
  {
    hide Hash, Blocks, BlockAt, AddMulReduceMany, Powers, PowerTable;
    PowerTableIsPowers(h);
    var chunk := data[i..i + 128];
    forall k | 0 <= k < 8 ensures Quarter(chunk, k) == BlockAt(data, i + 16 * k) {
      BlockAtSlice(data, i, i + 128, 16 * k);
    }
    ManyOnData(h, acc, chunk, Last8(data, i), 8);
  }

  /** `out[i + j] = in[i + j] ^ ks[j]` for `j < len`, in place when `out` is `input`. */
  method XorInto(input: array<Byte>, out: array<Byte>, i: nat, ks: seq<Byte>, len: nat)
    requires i + len <= input.Length == out.Length && len <= |ks|
    modifies out
    ensures forall k :: 0 <= k < out.Length ==>
        out[k] == if i <= k < i + len then Xor(old(input[k]), ks[k - i]) else old(out[k])
  {
    for j := 0 to len
      invariant forall k :: 0 <= k < out.Length ==>
          out[k] == if i <= k < i + j then Xor(old(input[k]), ks[k - i]) else old(out[k])
    {
      out[i + j] := Xor(input[i + j], ks[j]);
    }
  }

  /** Bytes before `i` of `out` are translated, the rest of `input` is untouched. */
  twostate predicate Done(cipher: Cipher, npub: seq<Byte>, input: array<Byte>, out: array<Byte>, i: nat)
    requires |npub| == 12 && i <= input.Length == out.Length
    reads input, out
  {
    && (forall k :: 0 <= k < i ==> out[k] == Xor(old(input[k]), KeyByte(cipher, npub, k)))
    && (forall k :: i <= k < input.Length ==> input[k] == old(input[k]))
  }

  /** `n & ~127`. */
  function Round128(n: nat): (r: nat)
    ensures r <= n < r + 128
  {
    128 * (n / 128)
  }

  lemma Aligned128(n: nat)
    ensures Round128(n) % 128 == 0 && Round128(n) % 16 == 0 && n - Round128(n) < 128
  {
    DivModUnique(n / 128, 0, 128);
    DivModUnique(8 * (n / 128), 0, 16);
  }

  lemma Step128(i: nat, n: nat)
    requires i % 128 == 0 && i < Round128(n)
    ensures i + 128 <= Round128(n) && (i + 128) % 128 == 0 && i % 16 == 0
  {
    var a, b := i / 128, n / 128;
    assert i == 128 * a;
    assert a < b;
    DivModUnique(a + 1, 0, 128);
    DivModUnique(8 * a, 0, 16);
  }

  /** The message loops of encryption. */
  method EncryptLoops(cipher: Cipher, npub: seq<Byte>, m: array<Byte>, c: array<Byte>, h: Elem, start: Elem)
    returns (accum: Elem)
    requires |npub| == 12 && c.Length == m.Length
    modifies c
    ensures c[..] == Crypt(cipher, npub, old(m[..]))
    ensures accum == Hash(h, start, Blocks(c[..]))
  {
    hide Hash, Blocks, AddMulReduceMany, PowerTable, Last8, KeyByte, Xor, Batch, Wrap32, CounterAt;
    var powers, rounded := PowerTable(h), Round128(m.Length);
    var n := Wrap32(0x0100_0000 % 0x0100_0000 + 2);
    FirstCounter();
    accum := start;
    var i := 0;
    assert c[..0] == [];
    HashNone(h, start);
    Aligned128(m.Length);
    while i < rounded
      invariant i % 128 == 0 && i <= rounded <= m.Length && n == CounterAt(i)
      invariant Done(cipher, npub, m, c, i)
      invariant accum == Hash(h, start, Blocks(c[..i]))
    {
      Step128(i, m.Length);
      BatchIsStream(cipher, npub, i);
      ghost var before := c[..i];
      XorInto(m, c, i, Batch(cipher, npub, n), 128);
      assert c[..i] == before;
      n := Wrap32(n as int + 8);
      EightOnData(h, accum, c[..], i);
      HashExtend(h, start, c[..], i, i + 128);
      Prefixes(c, i, i + 128);
      accum := AddMulReduceMany(powers, Last8(c[..], i), accum);
      i := i + 128;
    }
    if i < m.Length {
      var mj := m.Length - i;
      BatchIsStream(cipher, npub, i);
      ghost var before := c[..i];
      XorInto(m, c, i, Batch(cipher, npub, n), mj);
      assert c[..i] == before;
      HashExtend(h, start, c[..], i, c.Length);
      Prefixes(c, i, c.Length);
      accum := HashRemainder(accum, c[i..], h);
      i := m.Length;
    }
    assert c[..c.Length] == c[..];
  }

  lemma FirstCounter()
    ensures CounterAt(0) == 2 == Wrap32(2)
  {
  }

  lemma Prefixes(c: array<Byte>, i: nat, j: nat)
    requires i <= j <= c.Length
    ensures c[..][..i] == c[..i] && c[..][..j] == c[..j] && c[..][i..j] == c[i..j]
  {
  }

  /** The message loops of decryption: each batch is hashed before it is overwritten. */
  method DecryptLoops(cipher: Cipher, npub: seq<Byte>, c: array<Byte>, m: array?<Byte>, h: Elem, start: Elem)
    returns (accum: Elem)
    requires |npub| == 12 && c.Length == if m == null then 0 else m.Length
    modifies m
    ensures m != null ==> m[..] == Crypt(cipher, npub, old(c[..]))
    ensures accum == Hash(h, start, Blocks(old(c[..])))
  {
    hide Hash, Blocks, AddMulReduceMany, PowerTable, Last8, KeyByte, Xor, Batch, Wrap32, CounterAt;
    var powers, rounded := PowerTable(h), Round128(c.Length);
    ghost var was := c[..];
    var n := Wrap32(0 + 2);
    FirstCounter();
    accum := start;
    var i := 0;
    assert was[..0] == [];
    HashNone(h, start);
    Aligned128(c.Length);
    while i < rounded
      invariant i % 128 == 0 && i <= rounded <= c.Length && n == CounterAt(i)
      invariant m != null ==> Done(cipher, npub, c, m, i)
      invariant c[i..] == was[i..]
      invariant accum == Hash(h, start, Blocks(was[..i]))
    {
      Step128(i, c.Length);
      EightOnData(h, accum, c[..], i);
      HashExtend(h, start, was, i, i + 128);
      assert c[..][i..i + 128] == was[i..i + 128];
      accum := AddMulReduceMany(powers, Last8(c[..], i), accum);
      BatchIsStream(cipher, npub, i);
      XorInto(c, m, i, Batch(cipher, npub, n), 128);
      n := Wrap32(n as int + 8);
      i := i + 128;
    }
    if i < c.Length {
      var mj := c.Length - i;
      HashExtend(h, start, was, i, c.Length);
      assert c[i..] == was[i..c.Length];
      accum := HashRemainder(accum, c[i..], h);
      BatchIsStream(cipher, npub, i);
      XorInto(c, m, i, Batch(cipher, npub, n), mj);
      i := c.Length;
    }
    assert was[..c.Length] == was;
  }

  function Blank(n: nat): (z: seq<Byte>)
    ensures |z| == n && forall k :: 0 <= k < n ==> z[k] == ZeroByte()
  {
    seq(n, _ => ZeroByte())
  }

  /** Section 7.2 of SP 800-38D: the plaintext when the tag is the right one. */
  function Open(cipher: Cipher, npub: seq<Byte>, ad: seq<Byte>, c: seq<Byte>, mac: seq<Byte>): (r: (Status, seq<Byte>))
    requires |npub| == 12
  {
    if |c| > MESSAGEBYTES_MAX then (Aborted, [])
    else if mac == TagOf(cipher, npub, ad, c) then (Accepted, Crypt(cipher, npub, c))
    else (Rejected, Blank(|c|))
  }

  /** What encryption produced is accepted and opens to the message; any other tag is rejected. */
  lemma OpenSealed(cipher: Cipher, npub: seq<Byte>, ad: seq<Byte>, m: seq<Byte>, mac: seq<Byte>)
    requires |npub| == 12 && |m| <= MESSAGEBYTES_MAX
    ensures var c := Crypt(cipher, npub, m);
            var r := Open(cipher, npub, ad, c, mac);
            if mac == TagOf(cipher, npub, ad, c) then r == (Accepted, m) else r.0 == Rejected
  {
    hide TagOf, Crypt;
    CryptTwice(cipher, npub, m);
  }

  function AllBlocks(ad: seq<Byte>, c: seq<Byte>): seq<Elem> {
    Blocks(ad) + Blocks(c) + [LengthBlock(|ad|, |c|)]
  }

  /** The three parts of the hash, one after the other. */
  lemma HashParts(h: Elem, ad: seq<Byte>, c: seq<Byte>)
    ensures Hash(h, Zeros(128), AllBlocks(ad, c)) ==
            Hash(h, Hash(h, Hash(h, Zeros(128), Blocks(ad)), Blocks(c)), [LengthBlock(|ad|, |c|)])
  {
    hide Hash, Blocks, LengthBlock;
    HashConcat(h, Zeros(128), Blocks(ad) + Blocks(c), [LengthBlock(|ad|, |c|)]);
    HashConcat(h, Zeros(128), Blocks(ad), Blocks(c));
  }

  lemma MaskByte(x: Elem, y: Elem, i: nat)
    requires i < 16
    ensures Store(Xor(x, y))[i] == Xor(Store(x)[i], Store(y)[i])
  {
  }

  /** The tag bytes: the encrypted tag counter added to the accumulator, byte by byte. */
  method WriteTag(t: seq<Byte>, accum: Elem, mac: array<Byte>)
    requires |t| == 16 && mac.Length == 16
    modifies mac
    ensures mac[..] == Store(Xor(Load(t), accum))
  {
    hide Load, Store, Xor;
    StoreLoad(t);
    ghost var tag := Store(Xor(Load(t), accum));
    for i := 0 to 16
      invariant mac[..i] == tag[..i]
    {
      MaskByte(Load(t), accum, i);
      mac[i] := Xor(t[i], Store(accum)[i]);
    }
  }

  /** One more byte compared. */
  lemma CompareStep(t: seq<Byte>, accum: Elem, mac: seq<Byte>, i: nat, d: Byte)
    requires |t| == |mac| == 16 && i < 16
    requires d == ZeroByte() <==> mac[..i] == Store(Xor(Load(t), accum))[..i]
    ensures OrByte(d, Xor(mac[i], Xor(t[i], Store(accum)[i]))) == ZeroByte()
            <==> mac[..i + 1] == Store(Xor(Load(t), accum))[..i + 1]
  {
    hide Load, Store, Xor, OrByte, ZeroByte;
    var tag := Store(Xor(Load(t), accum));
    StoreLoad(t);
    MaskByte(Load(t), accum, i);
    SameByte(mac[i], tag[i]);
    OrZero(d, Xor(mac[i], tag[i]));
    assert mac[..i + 1] == mac[..i] + [mac[i]] && tag[..i + 1] == tag[..i] + [tag[i]];
  }

  /** `d`: the comparison that looks at every byte. */
  method SameTag(t: seq<Byte>, accum: Elem, mac: seq<Byte>) returns (same: bool)
    requires |t| == |mac| == 16
    ensures same == (mac == Store(Xor(Load(t), accum)))
  {
    hide Load, Store, Xor, OrByte, ZeroByte;
    ghost var tag := Store(Xor(Load(t), accum));
    var d := ZeroByte();
    assert mac[..0] == tag[..0];
    for i := 0 to 16
      invariant d == ZeroByte() <==> mac[..i] == tag[..i]
    {
      CompareStep(t, accum, mac, i, d);
      d := OrByte(d, Xor(mac[i], Xor(t[i], Store(accum)[i])));
    }
    assert mac[..16] == mac && tag[..16] == tag;
    same := d == ZeroByte();
  }

  function OrByte(x: Byte, y: Byte): (z: Byte)
    ensures forall j :: 0 <= j < 8 ==> z[j] == (x[j] || y[j])
  {
    seq(8, j requires 0 <= j < 8 => x[j] || y[j])
  }

  lemma OrZero(x: Byte, y: Byte)
    ensures OrByte(x, y) == ZeroByte() <==> x == ZeroByte() && y == ZeroByte()
  {
    var z := OrByte(x, y);
    if z == ZeroByte() {
      forall j | 0 <= j < 8 ensures !x[j] && !y[j] {
        assert !z[j];
      }
    }
  }

  lemma SameByte(x: Byte, y: Byte)
    ensures Xor(x, y) == ZeroByte() <==> x == y
  {
    if Xor(x, y) == ZeroByte() {
      assert forall j :: 0 <= j < 8 ==> !Xor(x, y)[j];
    }
  }

  /** The accumulator of the code, masked, is the tag of the standard. */
  lemma TagAssembled(cipher: Cipher, npub: seq<Byte>, ad: seq<Byte>, c: seq<Byte>)
    requires |npub| == 12
    ensures var h := cipher(Zeros(128));
            var accum := Hash(h, Hash(h, Zeros(128), Blocks(ad)), Blocks(c));
            Store(Xor(Load(Store(cipher(TagCounter(npub)))), AddMulReduce(accum, LengthBlock(|ad|, |c|), h)))
            == TagOf(cipher, npub, ad, c)
  {
    hide Hash, Blocks, Load, Store, LengthBlock, Xor, CounterBlock, TagCounter, AddMulReduce;
    var h := cipher(Zeros(128));
    var accum := Hash(h, Hash(h, Zeros(128), Blocks(ad)), Blocks(c));
    HashParts(h, ad, c);
    AddMulReduceIsStep(accum, LengthBlock(|ad|, |c|), h);
    TagCounterIsOne(npub);
    LoadStore(cipher(TagCounter(npub)));
  }

  /** Encryption: ciphertext and tag of the standard, or an abort that writes nothing. */
  method EncryptDetached(cipher: Cipher, c: array<Byte>, mac: array<Byte>, m: array<Byte>, ad: seq<Byte>,
                         npub: seq<Byte>)
    returns (status: Status)
    requires |npub| == 12 && mac.Length == 16 && c.Length == m.Length && mac != c
    modifies c, mac
    ensures status == if m.Length > MESSAGEBYTES_MAX then Aborted else Accepted
    ensures status == Aborted ==> c[..] == old(c[..]) && mac[..] == old(mac[..])
    ensures status == Accepted ==> c[..] == Crypt(cipher, npub, old(m[..]))
    ensures status == Accepted ==> mac[..] == TagOf(cipher, npub, ad, c[..])
  {
    hide *;
    if m.Length > MESSAGEBYTES_MAX {
      return Aborted;
    }
    var h := cipher(Zeros(128));
    var t := Store(cipher(TagCounter(npub)));
    var fb := LengthBlock(|ad|, m.Length);
    PowerTableIsPowers(h);
    var accum := HashAd(ad, h, PowerTable(h)[..4]);
    accum := EncryptLoops(cipher, npub, m, c, h, accum);
    TagAssembled(cipher, npub, ad, c[..]);
    accum := AddMulReduce(accum, fb, h);
    ghost var sealed := c[..];
    WriteTag(t, accum, mac);
    assert c[..] == sealed;
    status := Accepted;
  }

  /** Decryption: the plaintext if the tag matches, zeros if not. The loops store through the message pointer before
      the null test at the end, so a null pointer faults unless there is nothing to store. */
  method DecryptDetached(cipher: Cipher, m: array?<Byte>, c: array<Byte>, mac: seq<Byte>, ad: seq<Byte>,
                         npub: seq<Byte>)
    returns (status: Status)
    requires |npub| == 12 && |mac| == 16 && (m != null ==> c.Length == m.Length)
    modifies m
    ensures status == Faulted <==> m == null && 0 < c.Length <= MESSAGEBYTES_MAX
    ensures status != Faulted ==> status == Open(cipher, npub, ad, old(c[..]), mac).0
    ensures m != null && status == Aborted ==> m[..] == old(m[..])
    ensures m != null && status != Aborted ==> m[..] == Open(cipher, npub, ad, old(c[..]), mac).1
  {
    hide *;
    ghost var was := c[..];
    OpenCases(cipher, npub, ad, was, mac);
    if c.Length > MESSAGEBYTES_MAX {
      return Aborted;
    }
    var t := Store(cipher(TagCounter(npub)));
    var fb := LengthBlock(|ad|, c.Length);
    var h := cipher(Zeros(128));
    PowerTableIsPowers(h);
    var accum := HashAd(ad, h, PowerTable(h)[..4]);
    if m == null && c.Length > 0 {
      return Faulted;
    }
    accum := DecryptLoops(cipher, npub, c, m, h, accum);
    TagAssembled(cipher, npub, ad, was);
    accum := AddMulReduce(accum, fb, h);
    var same := SameTag(t, accum, mac);
    status := if same then Accepted else Rejected;
    if !same && m != null {
      Erase(m);
    }
  }

  method Erase(m: array<Byte>)
    modifies m
    ensures m[..] == Blank(m.Length)
  {
    for i := 0 to m.Length
      invariant forall k :: 0 <= k < i ==> m[k] == ZeroByte()
    {
      m[i] := ZeroByte();
    }
  }

  lemma OpenCases(cipher: Cipher, npub: seq<Byte>, ad: seq<Byte>, c: seq<Byte>, mac: seq<Byte>)
    requires |npub| == 12
    ensures Open(cipher, npub, ad, c, mac) ==
            if |c| > MESSAGEBYTES_MAX then (Aborted, [])
            else if mac == TagOf(cipher, npub, ad, c) then (Accepted, Crypt(cipher, npub, c))
            else (Rejected, Blank(|c|))
  {
    hide TagOf, Crypt, Blank;
  }
}
