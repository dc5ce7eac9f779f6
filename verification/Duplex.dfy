/**
 Stream encryption whose keystream depends on the plaintext absorbed so far, the shape
 shared by AEGIS-128L and AEGIS-256: each step XORs one block of keystream and absorbs the
 plaintext block, the last one zero-filled.
 */
module Duplex {
  import opened Machine
  import opened Bytes

  /** Bytes per step, keystream of a state, and the state after absorbing one block. */
  datatype Mode<!S> = Mode(rate: nat, stream: S -> seq<byte>, absorb: (S, seq<byte>) -> S)

  ghost predicate Sound<S(!new)>(d: Mode<S>) {
    d.rate > 0 && forall s :: |d.stream(s)| == d.rate
  }

  function Filled<S>(d: Mode<S>, data: seq<byte>): seq<byte>
    requires |data| <= d.rate
  {
    data + Zeros(d.rate - |data|)
  }

  /** The state after all of `data`. */
  function Absorbed<S>(d: Mode<S>, s: S, data: seq<byte>): S
    requires d.rate > 0
    decreases |data|
  {
    if data == [] then s
    else if |data| <= d.rate then d.absorb(s, Filled(d, data))
    else Absorbed(d, d.absorb(s, data[..d.rate]), data[d.rate..])
  }

  function Encrypted<S(!new)>(d: Mode<S>, s: S, m: seq<byte>): (c: seq<byte>)
    requires Sound(d)
    ensures |c| == |m|
    decreases |m|
  {
    if |m| <= d.rate then XorAll(m, d.stream(s))
    else XorAll(m[..d.rate], d.stream(s)) + Encrypted(d, d.absorb(s, m[..d.rate]), m[d.rate..])
  }

  function Decrypted<S(!new)>(d: Mode<S>, s: S, c: seq<byte>): (m: seq<byte>)
    requires Sound(d)
    ensures |m| == |c|
    decreases |c|
  {
    if |c| <= d.rate then XorAll(c, d.stream(s))
    else
      var p := XorAll(c[..d.rate], d.stream(s));
      p + Decrypted(d, d.absorb(s, p), c[d.rate..])
  }

  lemma LongStep<S(!new)>(d: Mode<S>, s: S, m: seq<byte>)
    requires Sound(d) && |m| > d.rate
    ensures var a, b := m[..d.rate], m[d.rate..];
            Encrypted(d, s, m) == XorAll(a, d.stream(s)) + Encrypted(d, d.absorb(s, a), b)
  {
  }

  lemma DecryptedStepwise<S(!new)>(d: Mode<S>, s: S, a: seq<byte>, b: seq<byte>)
    requires Sound(d) && |a| == d.rate && |b| > 0
    ensures var p := XorAll(a, d.stream(s)); Decrypted(d, s, a + b) == p + Decrypted(d, d.absorb(s, p), b)
  {
    assert (a + b)[..d.rate] == a && (a + b)[d.rate..] == b;
  }

  /** Decryption undoes encryption from the same state, for every length. */
  lemma {:induction false} DecryptedEncrypted<S(!new)>(d: Mode<S>, s: S, m: seq<byte>)
    requires Sound(d)
    ensures Decrypted(d, s, Encrypted(d, s, m)) == m
    decreases |m|
  {
    if |m| <= d.rate {
      XorAllTwice(m, d.stream(s));
    } else {
      var front, rest := m[..d.rate], m[d.rate..];
      var s' := d.absorb(s, front);
      XorAllTwice(front, d.stream(s));
      DecryptedEncrypted(d, s', rest);
      LongStep(d, s, m);
      hide Encrypted, Decrypted, XorAll;
      DecryptedStepwise(d, s, XorAll(front, d.stream(s)), Encrypted(d, s', rest));
      assert m == front + rest;
    }
  }

  /** And the other way round: every string is the encryption of its decryption. */
  lemma {:induction false} EncryptedDecrypted<S(!new)>(d: Mode<S>, s: S, c: seq<byte>)
    requires Sound(d)
    ensures Encrypted(d, s, Decrypted(d, s, c)) == c
    decreases |c|
  {
    if |c| <= d.rate {
      XorAllTwice(c, d.stream(s));
    } else {
      var front, rest := c[..d.rate], c[d.rate..];
      var p := XorAll(front, d.stream(s));
      XorAllTwice(front, d.stream(s));
      EncryptedDecrypted(d, d.absorb(s, p), rest);
      var m := Decrypted(d, s, c);
      assert m[..d.rate] == p && m[d.rate..] == Decrypted(d, d.absorb(s, p), rest);
      assert c == front + rest;
    }
  }

  lemma FullStep<S(!new)>(d: Mode<S>, s: S, m: seq<byte>)
    requires Sound(d) && |m| >= d.rate
    ensures var a, b := m[..d.rate], m[d.rate..];
            Absorbed(d, s, m) == Absorbed(d, d.absorb(s, a), b)
            && Encrypted(d, s, m) == XorAll(a, d.stream(s)) + Encrypted(d, d.absorb(s, a), b)
  {
    if |m| == d.rate {
      var a, b := m[..d.rate], m[d.rate..];
      assert a == m && b == [] && Filled(d, m) == m;
      assert Encrypted(d, d.absorb(s, a), b) == [];
      assert XorAll(m, d.stream(s)) + [] == XorAll(m, d.stream(s));
    }
  }

  /** A whole number of blocks first, the rest after. */
  lemma {:induction false} Continued<S(!new)>(d: Mode<S>, s: S, a: seq<byte>, b: seq<byte>, n: nat)
    requires Sound(d) && |a| == Times(n, d.rate)
    ensures Absorbed(d, s, a + b) == Absorbed(d, Absorbed(d, s, a), b)
    ensures Encrypted(d, s, a + b) == Encrypted(d, s, a) + Encrypted(d, Absorbed(d, s, a), b)
    decreases n
  {
    hide Absorbed, Encrypted;
    if n == 0 {
      assert a == [] && a + b == b;
      NoData(d, s);
      assert [] + Encrypted(d, s, b) == Encrypted(d, s, b);
    } else {
      var front, rest := a[..d.rate], a[d.rate..];
      var s' := d.absorb(s, front);
      FullStep(d, s, a);
      FullStep(d, s, a + b);
      assert (a + b)[..d.rate] == front && (a + b)[d.rate..] == rest + b;
      Continued(d, s', rest, b, n - 1);
      var x, y, z := XorAll(front, d.stream(s)), Encrypted(d, s', rest), Encrypted(d, Absorbed(d, s', rest), b);
      assert x + (y + z) == (x + y) + z;
    }
  }

  /** Absorbing block by block: whole blocks as they are, the last incomplete one zero-filled. */
  lemma AbsorbedIs<S>(d: Mode<S>, s: S, a: seq<byte>, rest: seq<byte>)
    requires d.rate > 0
    ensures Absorbed(d, s, []) == s
    ensures |a| == d.rate ==> Absorbed(d, s, a + rest) == Absorbed(d, d.absorb(s, a), rest)
    ensures 0 < |a| <= d.rate ==> Absorbed(d, s, a) == d.absorb(s, a + Zeros(d.rate - |a|))
  {
    if |a| == d.rate {
      assert (a + rest)[..d.rate] == a && (a + rest)[d.rate..] == rest;
      assert a + Zeros(0) == a;
      if rest == [] {
        assert a + rest == a;
      }
    }
  }

  /** Every byte of the ciphertext is the byte of the message under the keystream of the state that has absorbed the
      blocks of the message before it. */
  lemma EncryptedIs<S(!new)>(d: Mode<S>, s: S, m: seq<byte>, n: nat, at: nat, j: nat)
    requires Sound(d) && j < d.rate && at == n * d.rate && at + j < |m|
    ensures Encrypted(d, s, m)[at + j] == Xor(m[at + j], d.stream(Absorbed(d, s, m[..at]))[j])
  {
    hide Absorbed, Encrypted, Xor, Times;
    TimesIs(n, d.rate);
    var a, b := m[..at], m[at..];
    assert m == a + b;
    Continued(d, s, a, b, n);
    FirstBlock(d, Absorbed(d, s, a), b, j);
    SecondPart(Encrypted(d, s, a), Encrypted(d, Absorbed(d, s, a), b), j);
  }

  lemma SecondPart(a: seq<byte>, b: seq<byte>, j: nat)
    requires j < |b|
    ensures (a + b)[|a| + j] == b[j]
  {
  }

  lemma FirstBlock<S(!new)>(d: Mode<S>, s: S, b: seq<byte>, j: nat)
    requires Sound(d) && j < d.rate && j < |b|
    ensures Encrypted(d, s, b)[j] == Xor(b[j], d.stream(s)[j])
  {
    hide Xor, Absorbed;
  }

  lemma {:induction false} TimesIs(n: nat, rate: nat)
    ensures Times(n, rate) == n * rate
  {
    if n > 0 {
      TimesIs(n - 1, rate);
    }
  }

  function Times(n: nat, rate: nat): nat { if n == 0 then 0 else rate + Times(n - 1, rate) }

  lemma NoData<S(!new)>(d: Mode<S>, s: S)
    requires Sound(d)
    ensures Absorbed(d, s, []) == s && Encrypted(d, s, []) == []
  {
  }

  /** One step after a whole number of blocks, as the loops take it. */
  lemma OneMore<S(!new)>(d: Mode<S>, s: S, data: seq<byte>, i: nat, j: nat, n: nat)
    requires Sound(d) && i == Times(n, d.rate) && i < j <= |data| && j <= i + d.rate
    ensures var t := Absorbed(d, s, data[..i]);
            Absorbed(d, s, data[..j]) == d.absorb(t, Filled(d, data[i..j]))
            && Encrypted(d, s, data[..j]) == Encrypted(d, s, data[..i]) + XorAll(data[i..j], d.stream(t))
  {
    hide Absorbed, Encrypted;
    assert data[..j] == data[..i] + data[i..j];
    Continued(d, s, data[..i], data[i..j], n);
    LastStep(d, Absorbed(d, s, data[..i]), data[i..j]);
  }

  lemma LastStep<S(!new)>(d: Mode<S>, s: S, data: seq<byte>)
    requires Sound(d) && 0 < |data| <= d.rate
    ensures Absorbed(d, s, data) == d.absorb(s, Filled(d, data))
    ensures Encrypted(d, s, data) == XorAll(data, d.stream(s))
  {
  }

  // ------------------------------------------------- partial last blocks

  /** The keystream tail of a zero-filled block cancels against the decoded block. */
  lemma TailCancels(c: seq<byte>, k: seq<byte>, r: nat)
    requires |c| == r <= |k|
    ensures var dst := XorAll(c + Zeros(|k| - r), k);
            XorAll(dst, Zeros(r) + dst[r..]) == XorAll(c, k) + Zeros(|k| - r) && dst[..r] == XorAll(c, k)
  {
    hide Xor;
    var dst := XorAll(c + Zeros(|k| - r), k);
    var x, y := XorAll(dst, Zeros(r) + dst[r..]), XorAll(c, k) + Zeros(|k| - r);
    forall i | 0 <= i < |k| ensures x[i] == y[i] {
      if i < r {
        XorNone(dst[i]);
      } else {
        XorZero(dst[i], dst[i]);
      }
    }
  }

  lemma NoBlocks(rate: nat)
    ensures Times(0, rate) == 0
  {
  }

  lemma FullBlock<S>(d: Mode<S>, data: seq<byte>)
    requires |data| == d.rate
    ensures Filled(d, data) == data
  {
  }

  lemma SameSlice(a: array<byte>, was: seq<byte>, i: nat, k: nat)
    requires i + k <= a.Length == |was| && a[i..] == was[i..]
    ensures a[i..i + k] == was[i..i + k] && a[i + k..] == was[i + k..]
  {
    forall x | i <= x < a.Length ensures a[x] == was[x] {
      assert a[x] == a[i..][x - i] && was[x] == was[i..][x - i];
    }
  }

  lemma PrefixXor(a: seq<byte>, b: seq<byte>, k: seq<byte>)
    requires |a| + |b| <= |k|
    ensures XorAll(a + b, k)[..|a|] == XorAll(a, k)
  {
    hide Xor;
  }

  // ----------------------------------------------------------- the loops

  /** One more block of ciphertext. */
  lemma EncryptedStep<S(!new)>(d: Mode<S>, s: S, was: seq<byte>, i: nat, j: nat, n: nat, low: seq<byte>,
                               dst: seq<byte>, t: S)
    requires Sound(d) && i == Times(n, d.rate) && i < j <= i + d.rate && j <= |was|
    requires low == Encrypted(d, s, was[..i]) && t == Absorbed(d, s, was[..i])
    requires dst == XorAll(was[i..j], d.stream(t))
    ensures low + dst == Encrypted(d, s, was[..j])
    ensures Absorbed(d, s, was[..j]) == d.absorb(t, was[i..j] + Zeros(d.rate - (j - i)))
    ensures j == i + d.rate ==> j == Times(n + 1, d.rate) && was[i..j] + Zeros(d.rate - (j - i)) == was[i..j]
  {
    hide Absorbed, Encrypted, XorAll;
    OneMore(d, s, was, i, j, n);
  }

  /** One more block of plaintext. */
  lemma DecryptedStep<S(!new)>(d: Mode<S>, s: S, was: seq<byte>, i: nat, j: nat, n: nat, low: seq<byte>,
                               dst: seq<byte>, t: S)
    requires Sound(d) && i == Times(n, d.rate) && i < j <= i + d.rate && j <= |was| && |low| == i
    requires was[..i] == Encrypted(d, s, low) && t == Absorbed(d, s, low)
    requires dst == XorAll(was[i..j], d.stream(t))
    ensures was[..j] == Encrypted(d, s, low + dst)
    ensures Absorbed(d, s, low + dst) == d.absorb(t, dst + Zeros(d.rate - |dst|))
    ensures j == i + d.rate ==> j == Times(n + 1, d.rate) && dst + Zeros(d.rate - |dst|) == dst
  {
    hide Absorbed, Encrypted, XorAll;
    var out := low + dst;
    XorAllTwice(was[i..j], d.stream(t));
    assert out[..i] == low && out[i..j] == dst && out[..j] == out;
    OneMore(d, s, out, i, j, n);
    assert was[..j] == was[..i] + was[i..j];
  }
}
