/**
 The field of GHASH: multiplication as section 6.3 of NIST SP 800-38D defines it on
 bit strings whose leftmost bit is the coefficient of x^0. Multiplication is shown
 bilinear, commutative and associative.
 */
module Gf128 {
  type Bits = seq<bool>
  type Elem = b: Bits | |b| == 128 witness seq(128, _ => false)

  function Zeros(n: nat): (z: Bits)
    ensures |z| == n && forall j :: 0 <= j < n ==> !z[j]
  {
    seq(n, _ => false)
  }

  /** x^0. */
  function One(): Elem { [true] + Zeros(127) }

  /** The reduction string R = 11100001 || 0^120. */
  function R(): Elem { [true, true, true, false, false, false, false, true] + Zeros(120) }

  function Xor(x: Bits, y: Bits): (z: Bits)
    requires |x| == |y|
    ensures |z| == |x| && forall j :: 0 <= j < |x| ==> z[j] == (x[j] != y[j])
  {
    seq(|x|, j requires 0 <= j < |x| => x[j] != y[j])
  }

  function When(b: bool, x: Bits): (z: Bits)
    ensures |z| == |x| && forall j :: 0 <= j < |x| ==> z[j] == (b && x[j])
  {
    if b then x else Zeros(|x|)
  }

  /** One place to the right, towards higher powers. */
  function Shr(x: Bits): (z: Bits)
    requires |x| > 0
    ensures |z| == |x| && forall j :: 0 <= j < |x| ==> z[j] == (j > 0 && x[j - 1])
  {
    [false] + x[..|x| - 1]
  }

  function Last(x: Bits): bool
    requires |x| > 0
  {
    x[|x| - 1]
  }

  /** Multiplication by x. */
  function Times(v: Elem): Elem { Xor(Shr(v), When(Last(v), R())) }

  /** Algorithm 1 of SP 800-38D, run on the bits of `x` from the left with `v` as V. */
  function Steps(x: Bits, v: Elem): Elem {
    if x == [] then Zeros(128)
    else Xor(When(x[0], v), Steps(x[1..], Times(v)))
  }

  /** The product of two blocks. */
  function Mul(x: Elem, y: Elem): Elem { Steps(x, y) }

  // ------------------------------------------------------------ addition

  lemma XorZero(x: Bits)
    ensures Xor(x, Zeros(|x|)) == x && Xor(Zeros(|x|), x) == x && Xor(x, x) == Zeros(|x|)
  {
  }

  lemma XorCommutative(x: Bits, y: Bits)
    requires |x| == |y|
    ensures Xor(x, y) == Xor(y, x)
  {
  }

  lemma XorAssociative(x: Bits, y: Bits, z: Bits)
    requires |x| == |y| == |z|
    ensures Xor(Xor(x, y), z) == Xor(x, Xor(y, z))
  {
  }

  lemma XorSwap(a: Bits, b: Bits, c: Bits, d: Bits)
    requires |a| == |b| == |c| == |d|
    ensures Xor(Xor(a, b), Xor(c, d)) == Xor(Xor(a, c), Xor(b, d))
  {
  }

  lemma TimesLinear(x: Elem, y: Elem)
    ensures Times(Xor(x, y)) == Xor(Times(x), Times(y))
  {
  }

  lemma TimesZero()
    ensures Times(Zeros(128)) == Zeros(128)
  {
  }

  // ----------------------------------------------------------- linearity

  lemma {:induction false} StepsLinearLeft(x: Bits, x': Bits, v: Elem)
    requires |x| == |x'|
    ensures Steps(Xor(x, x'), v) == Xor(Steps(x, v), Steps(x', v))
    decreases |x|
  {
    hide Times;
    if x == [] {
      XorZero(Zeros(128));
    } else {
      StepsLinearLeft(x[1..], x'[1..], Times(v));
      assert Xor(x, x')[1..] == Xor(x[1..], x'[1..]);
      assert When(Xor(x, x')[0], v) == Xor(When(x[0], v), When(x'[0], v));
      XorSwap(When(x[0], v), Steps(x[1..], Times(v)), When(x'[0], v), Steps(x'[1..], Times(v)));
    }
  }

  lemma {:induction false} StepsLinearRight(x: Bits, v: Elem, v': Elem)
    ensures Steps(x, Xor(v, v')) == Xor(Steps(x, v), Steps(x, v'))
    decreases |x|
  {
    hide Times;
    if x == [] {
      XorZero(Zeros(128));
    } else {
      TimesLinear(v, v');
      StepsLinearRight(x[1..], Times(v), Times(v'));
      assert When(x[0], Xor(v, v')) == Xor(When(x[0], v), When(x[0], v'));
      XorSwap(When(x[0], v), Steps(x[1..], Times(v)), When(x[0], v'), Steps(x[1..], Times(v')));
    }
  }

  lemma {:induction false} StepsTimes(x: Bits, v: Elem)
    ensures Steps(x, Times(v)) == Times(Steps(x, v))
    decreases |x|
  {
    hide Times, Xor;
    TimesZero();
    if x != [] {
      StepsTimes(x[1..], Times(v));
      TimesLinear(When(x[0], v), Steps(x[1..], Times(v)));
      assert When(x[0], Times(v)) == Times(When(x[0], v));
    }
  }

  /** Multiplication distributes over addition on both sides. */
  lemma MulDistributes(x: Elem, x': Elem, y: Elem)
    ensures Mul(Xor(x, x'), y) == Xor(Mul(x, y), Mul(x', y))
    ensures Mul(y, Xor(x, x')) == Xor(Mul(y, x), Mul(y, x'))
  {
    hide Steps, Xor;
    StepsLinearLeft(x, x', y);
    StepsLinearRight(y, x, x');
  }

  /** A final zero bit contributes nothing. */
  lemma {:induction false} StepsTrailing(x: Bits, v: Elem)
    ensures Steps(x + [false], v) == Steps(x, v)
    decreases |x|
  {
    hide Times, Xor;
    if x == [] {
      XorZero(Zeros(128));
    } else {
      assert (x + [false])[1..] == x[1..] + [false];
      StepsTrailing(x[1..], Times(v));
    }
  }

  /** Shifting the first factor one place multiplies the product by x. */
  lemma MulShr(x: Elem, y: Elem)
    requires !Last(x)
    ensures Mul(Shr(x), y) == Times(Mul(x, y))
  {
    hide Times, Xor;
    var body := x[..127];
    assert x == body + [false];
    StepsTrailing(body, y);
    StepsTimes(body, y);
    assert Shr(x)[1..] == body;
    assert When(false, y) == Zeros(128);
    XorZero(Steps(body, Times(y)));
  }

  // ------------------------------------------------------- uniqueness

  /** A map that respects addition and turns a shift of its argument into a multiplication by x. */
  ghost predicate Compatible(f: Elem -> Elem) {
    && (forall x: Elem, y: Elem :: f(Xor(x, y)) == Xor(f(x), f(y)))
    && (forall x: Elem :: !Last(x) ==> f(Shr(x)) == Times(f(x)))
  }

  function Pad(s: Bits): Elem
    requires |s| <= 128
  {
    s + Zeros(128 - |s|)
  }

  lemma {:induction false} DeterminedOnPrefix(f: Elem -> Elem, s: Bits)
    requires Compatible(f) && |s| <= 128
    ensures f(Pad(s)) == Steps(s, f(One()))
    decreases |s|
  {
    hide Times, Xor, One;
    var zero := Zeros(128);
    XorZero(zero);
    assert f(Xor(zero, zero)) == Xor(f(zero), f(zero));
    XorZero(f(zero));
    if s == [] {
      assert Pad(s) == zero;
    } else {
      var rest := Pad(s[1..]);
      DeterminedOnPrefix(f, s[1..]);
      StepsTimes(s[1..], f(One()));
      PadSplit(s);
      assert f(Xor(When(s[0], One()), Shr(rest))) == Xor(f(When(s[0], One())), f(Shr(rest)));
      assert f(When(s[0], One())) == When(s[0], f(One()));
    }
  }

  lemma PadSplit(s: Bits)
    requires 0 < |s| <= 128
    ensures !Last(Pad(s[1..]))
    ensures Pad(s) == Xor(When(s[0], One()), Shr(Pad(s[1..])))
  {
  }

  /** Every compatible map is multiplication by its value at one. */
  lemma Determined(f: Elem -> Elem, x: Elem)
    requires Compatible(f)
    ensures f(x) == Mul(x, f(One()))
  {
    hide Steps, Compatible;
    DeterminedOnPrefix(f, x);
    assert Pad(x) == x;
  }

  lemma MulOneRight(x: Elem)
    ensures Mul(x, One()) == x
  {
    hide Xor, Times, Mul, One;
    var f := (x: Elem) => x;
    forall x: Elem | !Last(x) ensures f(Shr(x)) == Times(f(x)) {
      ShrIsTimes(x);
    }
    Determined(f, x);
  }

  lemma ShrIsTimes(x: Elem)
    requires !Last(x)
    ensures Shr(x) == Times(x)
  {
  }

  lemma MulTimesRight(x: Elem, y: Elem)
    ensures Mul(x, Times(y)) == Times(Mul(x, y))
  {
    hide Steps, Times;
    StepsTimes(x, y);
  }

  /** Multiplication is commutative. */
  lemma MulCommutative(x: Elem, y: Elem)
    ensures Mul(x, y) == Mul(y, x)
  {
    hide Xor, Times, Mul, One;
    var f := (x: Elem) => Mul(y, x);
    forall a: Elem, b: Elem ensures f(Xor(a, b)) == Xor(f(a), f(b)) {
      MulDistributes(a, b, y);
    }
    forall a: Elem | !Last(a) ensures f(Shr(a)) == Times(f(a)) {
      ShrIsTimes(a);
      MulTimesRight(y, a);
    }
    Determined(f, x);
    MulOneRight(y);
  }

  lemma MulTimesLeft(x: Elem, y: Elem)
    ensures Mul(Times(x), y) == Times(Mul(x, y))
  {
    hide Mul, Times;
    MulCommutative(Times(x), y);
    MulTimesRight(y, x);
    MulCommutative(x, y);
  }

  /** Multiplication is associative. */
  lemma MulAssociative(x: Elem, y: Elem, z: Elem)
    ensures Mul(Mul(x, y), z) == Mul(x, Mul(y, z))
  {
    hide Xor, Times, Mul, One;
    var f := (x: Elem) => Mul(Mul(x, y), z);
    forall a: Elem, b: Elem ensures f(Xor(a, b)) == Xor(f(a), f(b)) {
      MulDistributes(a, b, y);
      MulDistributes(Mul(a, y), Mul(b, y), z);
    }
    forall a: Elem | !Last(a) ensures f(Shr(a)) == Times(f(a)) {
      MulShr(a, y);
      MulTimesLeft(Mul(a, y), z);
    }
    Determined(f, x);
    MulCommutative(One(), y);
    MulOneRight(y);
  }
}
