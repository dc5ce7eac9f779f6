/**
 Fixed-width unsigned arithmetic as C defines it, and the few facts about
 division and multiplication that the other modules rely on.
 */
module Machine {
  const U32: int := 0x1_0000_0000
  const U64: int := 0x1_0000_0000_0000_0000

  type byte = x: int | 0 <= x < 0x100
  type u32 = x: int | 0 <= x < 0x1_0000_0000
  type u64 = x: int | 0 <= x < 0x1_0000_0000_0000_0000

  datatype Option<T> = None | Some(value: T)

  /** Conversion to `uint32_t`. */
  function Wrap32(x: int): u32 { x % U32 }

  /** Conversion to `uint64_t`. */
  function Wrap64(x: int): u64 { x % U64 }

  lemma MulMono(a: nat, b: nat, c: nat)
    requires a <= b
    ensures a * c <= b * c
  {
  }

  function Quotient(a: nat, b: nat): nat
    requires b > 0
  {
    Floor(a, b);
    a / b
  }

  lemma Floor(a: nat, b: nat)
    requires b > 0
    ensures 0 <= a / b && a / b * b <= a < a / b * b + b
  {
  }

  lemma EuclidBounds(a: nat, b: nat)
    requires b > 0
    ensures a == a / b * b + a % b && a / b * b >= 0 && a / b >= 0
  {
  }

  lemma RemainderBound(a: nat, b: nat)
    requires b > 0
    ensures 0 <= a % b < b && a % b <= a
  {
  }

  /** Quotient and remainder are the only pair of their kind. */
  lemma DivModUnique(q: nat, r: nat, n: nat)
    requires r < n
    ensures (q * n + r) / n == q
    ensures (q * n + r) % n == r
  {
    var x := q * n + r;
    EuclidUnique(q, r, x / n, x % n, n);
  }

  lemma EuclidUnique(q: int, r: nat, q': int, r': nat, n: nat)
    requires r < n && r' < n
    requires q * n + r == q' * n + r'
    ensures q == q' && r == r'
  {
    if q > q' {
      QuotientGap(q, r, q', r', n);
    } else if q < q' {
      QuotientGap(q', r', q, r, n);
    }
  }

  lemma QuotientGap(q: int, r: nat, q': int, r': nat, n: nat)
    requires q > q' && q * n + r == q' * n + r'
    ensures r' >= n
  {
    MulMono(1, q - q', n);
    assert (q - q') * n == r' - r;
  }

  /** A remainder after at most one wrap. */
  lemma ModOnce(x: nat, n: nat)
    requires 0 < n && x < 2 * n
    ensures x % n == if x < n then x else x - n
  {
    if x < n {
      DivModUnique(0, x, n);
    } else {
      DivModUnique(1, x - n, n);
    }
  }

  lemma ModUnique(x: int, q: int, r: nat, n: nat)
    requires r < n && x == q * n + r
    ensures x % n == r
  {
    EuclidUnique(x / n, x % n, q, r, n);
  }

  lemma DoubleRemainder(u: nat, h: nat)
    requires h > 0
    ensures u % (2 * h) == 2 * (u / 2 % h) + u % 2
  {
    var q, r := u / 2 / h, u / 2 % h;
    assert u == q * (2 * h) + (2 * r + u % 2) by {
      assert u / 2 == q * h + r;
      assert q * (2 * h) == 2 * (q * h);
    }
    ModUnique(u, q, 2 * r + u % 2, 2 * h);
  }

  /** Numbers that differ by a multiple of `n` agree modulo `n`. */
  lemma ModShift(x: int, k: int, n: nat)
    requires n > 0
    ensures (x + k * n) % n == x % n
  {
    var q, r := x / n, x % n;
    assert x + k * n == (q + k) * n + r by {
      assert (q + k) * n == q * n + k * n;
    }
    ModUnique(x + k * n, q + k, r, n);
  }

  lemma ModAdd(x: int, y: int, n: nat)
    requires n > 0
    ensures (x % n + y % n) % n == (x + y) % n
  {
    var a, b := x / n, y / n;
    assert x + y == x % n + y % n + (a + b) * n by {
      assert (a + b) * n == a * n + b * n;
    }
    ModShift(x % n + y % n, a + b, n);
  }
}
