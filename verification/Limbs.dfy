/**
 Arithmetic on little-endian byte arrays: the byte loops that carry, borrow and compare
 without branching on the data.
 */
module Limbs {
  import opened Machine
  import opened Bytes

  /** Conversion of a 64-bit `uint_fast16_t` to `unsigned char`. */
  function Low(c: u64): byte { c % 256 }

  lemma CarryStep(p: nat, c: nat, n: nat, r: nat, c': nat)
    requires c' * 256 + r == c + n
    ensures r * p + c' * (256 * p) == c * p + n * p
  {
    assert (c' * 256 + r) * p == (c + n) * p;
  }

  /** After a carry chain the value is the sum modulo the power. */
  lemma Wrapped(v: nat, c: nat, p: nat, sum: nat)
    requires v < p && v + c * p == sum
    ensures v == sum % p
  {
    DivModUnique(c, v, p);
  }

  lemma PrefixSnoc(a: array<byte>, i: nat)
    requires i < a.Length
    ensures a[..i + 1] == a[..i] + [a[i]]
    ensures Value(a[..i + 1]) == Value(a[..i]) + a[i] * Pow256(i)
  {
    ValueSnoc(a[..i], a[i]);
  }

  /** `sodium_increment` on the first `nlen` bytes. */
  method Increment(n: array<byte>, nlen: nat)
    requires nlen <= n.Length
    modifies n
    ensures Value(n[..nlen]) == (Value(old(n[..nlen])) + 1) % Pow256(nlen)
    ensures n[nlen..] == old(n[nlen..])
  {
    hide Pow256, Value;
    var c: nat := 1;
    ghost var was := n[..];
    SeqStart(was);
    for i := 0 to nlen
      invariant c <= 1
      invariant n[i..] == was[i..]
      invariant Value(n[..i]) + c * Pow256(i) == Value(was[..i]) + 1
    {
      ghost var low := n[..i];
      ghost var before, b := c, n[i];
      SeqSnoc(was, i);
      c := c + n[i];
      n[i] := c % 256;
      c := c / 256;
      assert n[..i] == low;
      PrefixSnoc(n, i);
      CarryStep(Pow256(i), before, b, n[i], c);
      PowerNext(i);
    }
    ValueBound(n[..nlen]);
    Wrapped(Value(n[..nlen]), c, Pow256(nlen), Value(was[..nlen]) + 1);
    assert was[..nlen] == old(n[..nlen]) && was[nlen..] == old(n[nlen..]);
  }

  lemma PowerNext(i: nat)
    ensures Pow256(i + 1) == 256 * Pow256(i)
  {
  }

  lemma SeqStart(s: seq<byte>)
    ensures Value(s[..0]) == 0 && Pow256(0) == 1 && Value([]) == 0
  {
  }

  lemma SeqSnoc(s: seq<byte>, i: nat)
    requires i < |s|
    ensures s[..i + 1] == s[..i] + [s[i]]
    ensures Value(s[..i + 1]) == Value(s[..i]) + s[i] * Pow256(i)
  {
    assert s[..i + 1] == s[..i] + [s[i]];
    ValueSnoc(s[..i], s[i]);
  }

  /** `sodium_add`: `a` becomes the sum modulo 256^len. */
  method Add(a: array<byte>, b: seq<byte>, len: nat)
    requires len <= a.Length && len <= |b|
    modifies a
    ensures Value(a[..len]) == (Value(old(a[..len])) + Value(b[..len])) % Pow256(len)
    ensures a[len..] == old(a[len..])
  {
    hide Pow256, Value;
    var c: nat := 0;
    ghost var was := a[..];
    SeqStart(was);
    SeqStart(b);
    for i := 0 to len
      invariant c <= 1
      invariant a[i..] == was[i..]
      invariant Value(a[..i]) + c * Pow256(i) == Value(was[..i]) + Value(b[..i])
    {
      ghost var low := a[..i];
      ghost var before, x := c, a[i];
      SeqSnoc(was, i);
      SeqSnoc(b, i);
      c := c + (a[i] as nat + b[i] as nat);
      a[i] := c % 256;
      c := c / 256;
      assert a[..i] == low;
      PrefixSnoc(a, i);
      CarryStep(Pow256(i), before, x as nat + b[i] as nat, a[i], c);
      AddProducts(x, b[i], Pow256(i));
      PowerNext(i);
    }
    ValueBound(a[..len]);
    Wrapped(Value(a[..len]), c, Pow256(len), Value(was[..len]) + Value(b[..len]));
    assert was[..len] == old(a[..len]) && was[len..] == old(a[len..]);
  }

  lemma AddProducts(x: nat, y: nat, p: nat)
    ensures (x + y) * p == x * p + y * p
  {
  }

  /** `sodium_sub`: `a` becomes the difference modulo 256^len; the final borrow is returned for the proofs. */
  method Sub(a: array<byte>, b: seq<byte>, len: nat) returns (ghost borrow: nat)
    requires len <= a.Length && len <= |b|
    modifies a
    ensures borrow == (if Value(old(a[..len])) < Value(b[..len]) then 1 else 0)
    ensures Value(a[..len]) == Value(old(a[..len])) - Value(b[..len]) + borrow * Pow256(len)
    ensures a[len..] == old(a[len..])
  {
    hide Pow256, Value;
    var c: u64 := 0;
    ghost var was := a[..];
    SeqStart(was);
    SeqStart(b);
    for i := 0 to len
      invariant c <= 1
      invariant a[i..] == was[i..]
      invariant Value(a[..i]) + Value(b[..i]) == Value(was[..i]) + c * Pow256(i)
    {
      ghost var low := a[..i];
      ghost var before, x := c, a[i];
      SeqSnoc(was, i);
      SeqSnoc(b, i);
      var d: int := a[i] as int - b[i] as int - c as int;
      BorrowStep(d);
      c := Wrap64(d);
      a[i] := Low(c);
      c := c / 256 % 2;
      assert a[..i] == low;
      PrefixSnoc(a, i);
      assert c * 256 + x == before + (a[i] as nat + b[i] as nat);
      CarryStep(Pow256(i), before, a[i] as nat + b[i] as nat, x, c);
      AddProducts(a[i], b[i], Pow256(i));
      PowerNext(i);
    }
    borrow := c;
    ValueBound(a[..len]);
    ValueBound(was[..len]);
    ValueBound(b[..len]);
    assert was[..len] == old(a[..len]) && was[len..] == old(a[len..]);
  }

  /** An unsigned difference of bytes, with borrow: its low byte and its ninth bit. */
  lemma BorrowStep(d: int)
    requires -256 <= d <= 255
    ensures Low(Wrap64(d)) == (if d < 0 then d + 256 else d)
    ensures Wrap64(d) / 256 % 2 == if d < 0 then 1 else 0
  {
    if d < 0 {
      assert Wrap64(d) == d + U64;
    } else {
      assert Wrap64(d) == d;
    }
  }

  /** `x >> 8` on a signed value. */
  function Shift8(x: int): int { x / 256 }

  /** `mask & bit` where the mask is all zeros or all ones. */
  function Masked(mask: int, bit: int): int { if mask == -1 then bit else 0 }

  /** `sodium_compare`: -1, 0 or 1 as `a` is below, equal to or above `b`. */
  method Compare(a: seq<byte>, b: seq<byte>) returns (r: int)
    requires |a| == |b|
    ensures r == if Value(a) < Value(b) then -1 else if Value(a) == Value(b) then 0 else 1
  {
    hide Value, Xor;
    var gt, eq := 0, 1;
    var i := |a|;
    NoTail(a);
    NoTail(b);
    while i != 0
      invariant 0 <= i <= |a|
      invariant eq == (if Value(a[i..]) == Value(b[i..]) then 1 else 0)
      invariant gt == (if Value(a[i..]) > Value(b[i..]) then 1 else 0)
    {
      TailStep(a, i - 1);
      TailStep(b, i - 1);
      i := i - 1;
      var x1, x2 := a[i] as int, b[i] as int;
      XorZero(b[i], a[i]);
      var above := Masked(Shift8(x2 - x1), eq);
      gt := if above == 1 then 1 else gt;
      eq := Masked(Shift8(Xor(b[i], a[i]) as int - 1), eq);
    }
    assert a[0..] == a && b[0..] == b;
    r := gt + gt + eq - 1;
  }

  lemma NoTail(a: seq<byte>)
    ensures Value(a[|a|..]) == 0
  {
  }

  lemma TailStep(a: seq<byte>, i: nat)
    requires i < |a|
    ensures Value(a[i..]) == a[i] + 256 * Value(a[i + 1..])
  {
    assert a[i..][1..] == a[i + 1..];
  }

  /** `sodium_is_zero`. */
  method IsZero(n: seq<byte>) returns (r: bool)
    ensures r == (n == Zeros(|n|))
    ensures r == (Value(n) == 0)
  {
    hide Value, Or;
    var d: byte := 0;
    for i := 0 to |n|
      invariant d == 0 <==> forall k :: 0 <= k < i ==> n[k] == 0
    {
      OrZero(d, n[i]);
      d := Or(d, n[i]);
    }
    r := Shift8(d as int - 1) % 2 == 1;
    ValueZeros(|n|);
    ValueInjective(n, Zeros(|n|));
  }

  /** `sodium_memcmp`: 0 when equal, -1 otherwise. */
  method Memcmp(a: seq<byte>, b: seq<byte>) returns (r: int)
    requires |a| == |b|
    ensures r == if a == b then 0 else -1
  {
    hide Xor, Or;
    var d: byte := 0;
    for i := 0 to |a|
      invariant d == 0 <==> forall k :: 0 <= k < i ==> a[k] == b[k]
    {
      XorZero(a[i], b[i]);
      OrZero(d, Xor(a[i], b[i]));
      d := Or(d, Xor(a[i], b[i]));
    }
    r := Shift8(d as int - 1) % 2 - 1;
  }
}
