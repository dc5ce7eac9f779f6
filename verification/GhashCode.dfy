/**
 GHASH multiplication as the AES-NI code computes it: carry-less products of 64-bit
 halves, one shift and one reduction. A register is the bit string of its 128 bits from
 the most significant one. The result is the field product, also for the 4- and 8-way
 forms that add products before a single reduction.
 */
module GhashCode {
  import opened Gf128

  // --------------------------------------------------- register operations

  function Bit(x: Bits, j: int): bool { 0 <= j < |x| && x[j] }

  /** Whole-register shifts. */
  function Left(x: Bits, k: nat): (z: Bits)
    ensures |z| == |x| && forall j :: 0 <= j < |x| ==> z[j] == Bit(x, j + k)
  {
    seq(|x|, j => Bit(x, j + k))
  }

  function Right(x: Bits, k: nat): (z: Bits)
    ensures |z| == |x| && forall j :: 0 <= j < |x| ==> z[j] == Bit(x, j - k)
  {
    seq(|x|, j => Bit(x, j - k))
  }

  /** `_mm_slli_epi32` and `_mm_srli_epi32`: shifts inside each 32-bit lane. */
  function LeftLanes(x: Elem, k: nat): (z: Elem)
    ensures forall j :: 0 <= j < 128 ==> z[j] == (j % 32 + k < 32 && Bit(x, j + k))
  {
    seq(128, j requires 0 <= j => j % 32 + k < 32 && Bit(x, j + k))
  }

  function RightLanes(x: Elem, k: nat): (z: Elem)
    ensures forall j :: 0 <= j < 128 ==> z[j] == (j % 32 >= k && Bit(x, j - k))
  {
    seq(128, j requires 0 <= j => j % 32 >= k && Bit(x, j - k))
  }

  function Or(x: Elem, y: Elem): (z: Elem)
    ensures forall j :: 0 <= j < 128 ==> z[j] == (x[j] || y[j])
  {
    seq(128, j requires 0 <= j < 128 => x[j] || y[j])
  }

  function Hi(x: Elem): (h: Bits)
    ensures |h| == 64
  {
    x[..64]
  }

  function Lo(x: Elem): (l: Bits)
    ensures |l| == 64
  {
    x[64..]
  }

  /** Sum over the set bits of `a`, from its most significant one, of `y` shifted right accordingly. */
  function Product(a: Bits, y: Elem): Elem {
    if a == [] then Zeros(128)
    else Xor(When(a[0], y), Product(a[1..], Shr(y)))
  }

  /** Carry-less product of two 64-bit halves, 127 bits in a 128-bit register. */
  function Clmul(a: Bits, b: Bits): Elem
    requires |a| == |b| == 64
  {
    Product(a, [false] + b + Zeros(63))
  }

  /** The reduction of `mulv`, `addmulreduce` and the aggregated forms, step by step. */
  function Reduce(hi: Elem, lo: Elem): Elem {
    var tmp7, tmp8 := RightLanes(lo, 31), RightLanes(hi, 31);
    var tmp16, tmp18 := LeftLanes(lo, 1), LeftLanes(hi, 1);
    var tmp9 := Right(tmp7, 96);
    var tmp22, tmp25 := Left(tmp8, 32), Left(tmp7, 32);
    var tmp29, tmp19 := Or(tmp16, tmp25), Or(tmp18, tmp22);
    var tmp20 := Or(tmp19, tmp9);
    var tmp28 := Xor(Xor(LeftLanes(tmp29, 31), LeftLanes(tmp29, 30)), LeftLanes(tmp29, 25));
    var tmp24, tmp33 := Right(tmp28, 32), Left(tmp28, 96);
    var tmp30 := Xor(tmp29, tmp33);
    var tmp35 := Xor(Xor(RightLanes(tmp30, 1), RightLanes(tmp30, 2)), RightLanes(tmp30, 7));
    var tmp31 := Xor(tmp30, Xor(tmp35, tmp24));
    Xor(tmp20, tmp31)
  }

  /** Low and high register of the unreduced product, from the three partial products. */
  function LowPart(low: Elem, mid: Elem): Elem { Xor(low, Left(mid, 64)) }
  function HighPart(high: Elem, mid: Elem): Elem { Xor(high, Right(mid, 64)) }

  /** `mulv`. */
  function Mulv(a: Elem, b: Elem): Elem {
    var tmp3, tmp6 := Clmul(Lo(a), Lo(b)), Clmul(Hi(a), Hi(b));
    var tmp10 := Xor(Clmul(Lo(a), Hi(b)), Clmul(Hi(a), Lo(b)));
    Reduce(HighPart(tmp6, tmp10), LowPart(tmp3, tmp10))
  }

  // ----------------------------------------------------- the reduction

  /** The reduction as whole-register shifts: `d` folds the low half once, then three shifted copies are added. */
  function FoldLow(l: Elem): Elem {
    Xor(l, Xor(Xor(Left(l, 127), Left(l, 126)), Left(l, 121)))
  }

  function Spread(d: Elem): Elem {
    Xor(d, Xor(Xor(Right(d, 1), Right(d, 2)), Right(d, 7)))
  }

  function Upper(hi: Elem, lo: Elem): Elem { Left(hi + lo, 1)[..128] }
  function Lower(lo: Elem): Elem { Left(lo, 1) }

  function ReduceWhole(hi: Elem, lo: Elem): Elem {
    Xor(Upper(hi, lo), Spread(FoldLow(Lower(lo))))
  }

  lemma CarriesMeet(hi: Elem, lo: Elem)
    ensures Or(LeftLanes(lo, 1), Left(RightLanes(lo, 31), 32)) == Lower(lo)
    ensures Or(Or(LeftLanes(hi, 1), Left(RightLanes(hi, 31), 32)), Right(RightLanes(lo, 31), 96)) == Upper(hi, lo)
  {
  }

  function Fed(l: Elem): Elem { Xor(Xor(LeftLanes(l, 31), LeftLanes(l, 30)), LeftLanes(l, 25)) }

  lemma FoldLowLanes(l: Elem)
    ensures Xor(l, Left(Fed(l), 96)) == FoldLow(l)
  {
  }

  /** What a lane shift loses, the lane-wise left shift of the neighbouring word brings back. */
  lemma LanesJoin(l: Elem, d: Elem, k: nat)
    requires 0 < k < 25 && forall j :: 7 <= j < 128 ==> d[j] == l[j]
    ensures Xor(RightLanes(d, k), Right(LeftLanes(l, 32 - k), 32)) == Right(d, k)
  {
    forall j | 0 <= j < 128
      ensures Xor(RightLanes(d, k), Right(LeftLanes(l, 32 - k), 32))[j] == Right(d, k)[j]
    {
      if j >= 32 {
        assert (j - 32) % 32 == j % 32;
      }
    }
  }

  lemma XorSix(a: Bits, b: Bits, c: Bits, x: Bits, y: Bits, z: Bits)
    requires |a| == |b| == |c| == |x| == |y| == |z|
    ensures Xor(Xor(Xor(a, b), c), Xor(Xor(x, y), z)) == Xor(Xor(Xor(a, x), Xor(b, y)), Xor(c, z))
  {
  }

  lemma FedRight(l: Elem)
    ensures Right(Fed(l), 32) ==
            Xor(Xor(Right(LeftLanes(l, 31), 32), Right(LeftLanes(l, 30), 32)), Right(LeftLanes(l, 25), 32))
  {
    hide LeftLanes, Left, Right, Xor;
    ShiftsLinear(LeftLanes(l, 31), LeftLanes(l, 30), 32);
    ShiftsLinear(Xor(LeftLanes(l, 31), LeftLanes(l, 30)), LeftLanes(l, 25), 32);
  }

  lemma SpreadLanes(l: Elem, d: Elem)
    requires forall j :: 7 <= j < 128 ==> d[j] == l[j]
    ensures Xor(d, Xor(Xor(Xor(RightLanes(d, 1), RightLanes(d, 2)), RightLanes(d, 7)), Right(Fed(l), 32))) == Spread(d)
  {
    hide Fed, LeftLanes, RightLanes, Left, Right, Xor;
    var a, b, c := RightLanes(d, 1), RightLanes(d, 2), RightLanes(d, 7);
    var x, y, z := Right(LeftLanes(l, 31), 32), Right(LeftLanes(l, 30), 32), Right(LeftLanes(l, 25), 32);
    calc {
      Xor(Xor(Xor(a, b), c), Right(Fed(l), 32));
    == { FedRight(l); }
      Xor(Xor(Xor(a, b), c), Xor(Xor(x, y), z));
    == { XorSix(a, b, c, x, y, z); }
      Xor(Xor(Xor(a, x), Xor(b, y)), Xor(c, z));
    == { LanesJoin(l, d, 1); LanesJoin(l, d, 2); LanesJoin(l, d, 7); }
      Xor(Xor(Right(d, 1), Right(d, 2)), Right(d, 7));
    }
  }

  lemma ReduceIsWhole(hi: Elem, lo: Elem)
    ensures Reduce(hi, lo) == ReduceWhole(hi, lo)
  {
    hide LeftLanes, RightLanes, Or, Left, Right, Xor;
    CarriesMeet(hi, lo);
    var l := Lower(lo);
    FoldLowLanes(l);
    FoldLowTail(l);
    SpreadLanes(l, FoldLow(l));
  }

  lemma FoldLowTail(l: Elem)
    ensures forall j :: 7 <= j < 128 ==> FoldLow(l)[j] == l[j]
  {
  }

  // ------------------------------------------------------- linearity

  lemma ShiftsLinear(x: Bits, y: Bits, k: nat)
    requires |x| == |y|
    ensures Left(Xor(x, y), k) == Xor(Left(x, k), Left(y, k))
    ensures Right(Xor(x, y), k) == Xor(Right(x, k), Right(y, k))
  {
  }

  lemma FoldLowLinear(x: Elem, y: Elem)
    ensures FoldLow(Xor(x, y)) == Xor(FoldLow(x), FoldLow(y))
  {
    hide Left, Xor;
    ShiftsLinear(x, y, 127);
    ShiftsLinear(x, y, 126);
    ShiftsLinear(x, y, 121);
    XorSwap(Left(x, 127), Left(y, 127), Left(x, 126), Left(y, 126));
    var a, b := Xor(Left(x, 127), Left(x, 126)), Xor(Left(y, 127), Left(y, 126));
    XorSwap(a, b, Left(x, 121), Left(y, 121));
    XorSwap(x, y, Xor(a, Left(x, 121)), Xor(b, Left(y, 121)));
  }

  lemma SpreadLinear(x: Elem, y: Elem)
    ensures Spread(Xor(x, y)) == Xor(Spread(x), Spread(y))
  {
    hide Right, Xor;
    ShiftsLinear(x, y, 1);
    ShiftsLinear(x, y, 2);
    ShiftsLinear(x, y, 7);
    XorSwap(Right(x, 1), Right(y, 1), Right(x, 2), Right(y, 2));
    var a, b := Xor(Right(x, 1), Right(x, 2)), Xor(Right(y, 1), Right(y, 2));
    XorSwap(a, b, Right(x, 7), Right(y, 7));
    XorSwap(x, y, Xor(a, Right(x, 7)), Xor(b, Right(y, 7)));
  }

  lemma UpperLinear(hi: Elem, lo: Elem, hi': Elem, lo': Elem)
    ensures Upper(Xor(hi, hi'), Xor(lo, lo')) == Xor(Upper(hi, lo), Upper(hi', lo'))
  {
  }

  /** The reduction respects addition: sums of products may be reduced once. */
  lemma ReduceLinear(hi: Elem, lo: Elem, hi': Elem, lo': Elem)
    ensures Reduce(Xor(hi, hi'), Xor(lo, lo')) == Xor(Reduce(hi, lo), Reduce(hi', lo'))
  {
    hide Reduce, Upper, Spread, FoldLow, Left, Xor;
    ReduceIsWhole(hi, lo);
    ReduceIsWhole(hi', lo');
    ReduceIsWhole(Xor(hi, hi'), Xor(lo, lo'));
    UpperLinear(hi, lo, hi', lo');
    ShiftsLinear(lo, lo', 1);
    FoldLowLinear(Lower(lo), Lower(lo'));
    SpreadLinear(FoldLow(Lower(lo)), FoldLow(Lower(lo')));
    XorSwap(Upper(hi, lo), Spread(FoldLow(Lower(lo))), Upper(hi', lo'), Spread(FoldLow(Lower(lo'))));
  }

  lemma {:induction false} ProductLinearLeft(a: Bits, a': Bits, y: Elem)
    requires |a| == |a'|
    ensures Product(Xor(a, a'), y) == Xor(Product(a, y), Product(a', y))
    decreases |a|
  {
    hide Shr;
    if a == [] {
      XorZero(Zeros(128));
    } else {
      ProductLinearLeft(a[1..], a'[1..], Shr(y));
      assert Xor(a, a')[1..] == Xor(a[1..], a'[1..]);
      assert When(Xor(a, a')[0], y) == Xor(When(a[0], y), When(a'[0], y));
      XorSwap(When(a[0], y), Product(a[1..], Shr(y)), When(a'[0], y), Product(a'[1..], Shr(y)));
    }
  }

  lemma ShrLinear(x: Bits, y: Bits)
    requires |x| == |y| > 0
    ensures Shr(Xor(x, y)) == Xor(Shr(x), Shr(y))
  {
  }

  lemma {:induction false} ProductLinearRight(a: Bits, y: Elem, y': Elem)
    ensures Product(a, Xor(y, y')) == Xor(Product(a, y), Product(a, y'))
    decreases |a|
  {
    hide Shr;
    if a == [] {
      XorZero(Zeros(128));
    } else {
      ShrLinear(y, y');
      ProductLinearRight(a[1..], Shr(y), Shr(y'));
      assert When(a[0], Xor(y, y')) == Xor(When(a[0], y), When(a[0], y'));
      XorSwap(When(a[0], y), Product(a[1..], Shr(y)), When(a[0], y'), Product(a[1..], Shr(y')));
    }
  }

  lemma ClmulBilinear(a: Bits, a': Bits, b: Bits, b': Bits)
    requires |a| == |a'| == |b| == |b'| == 64
    ensures Clmul(Xor(a, a'), b) == Xor(Clmul(a, b), Clmul(a', b))
    ensures Clmul(a, Xor(b, b')) == Xor(Clmul(a, b), Clmul(a, b'))
  {
    hide Product;
    var y, y' := [false] + b + Zeros(63), [false] + b' + Zeros(63);
    ProductLinearLeft(a, a', y);
    ProductLinearRight(a, y, y');
    assert Xor(y, y') == [false] + Xor(b, b') + Zeros(63);
  }

  // ------------------------------------------- one place to the right

  lemma {:induction false} ProductShr(a: Bits, y: Elem)
    ensures Product(a, Shr(y)) == Shr(Product(a, y))
    decreases |a|
  {
    hide Xor, Shr;
    if a == [] {
      assert Shr(Zeros(128)) == Zeros(128);
    } else {
      ProductShr(a[1..], Shr(y));
      ShrLinear(When(a[0], y), Product(a[1..], Shr(y)));
      assert When(a[0], Shr(y)) == Shr(When(a[0], y)) by {
        assert Shr(Zeros(128)) == Zeros(128);
      }
    }
  }

  function ShrBy(y: Elem, k: nat): Elem
    requires k <= 128
  {
    Zeros(k) + y[..128 - k]
  }

  lemma {:induction false} ProductAppend(a: Bits, s: bool, y: Elem)
    requires |a| < 128
    ensures Product(a + [s], y) == Xor(Product(a, y), When(s, ShrBy(y, |a|)))
    decreases |a|
  {
    hide Xor, Shr;
    if a == [] {
      assert (a + [s])[1..] == [];
      assert ShrBy(y, 0) == y;
      XorZero(When(s, y));
    } else {
      assert (a + [s])[1..] == a[1..] + [s];
      ProductAppend(a[1..], s, Shr(y));
      assert ShrBy(Shr(y), |a| - 1) == ShrBy(y, |a|);
      XorAssociative(When(a[0], y), Product(a[1..], Shr(y)), When(s, ShrBy(y, |a|)));
    }
  }

  function Placed(b: Bits): Elem
    requires |b| == 64
  {
    [false] + b + Zeros(63)
  }

  /** The half of an even register that loses its last bit and gains `s` in front. */
  lemma ClmulLowHalf(a: Bits, s: bool, b: Bits)
    requires |a| == |b| == 64 && !Last(a)
    ensures Clmul([s] + a[..63], b) == Xor(When(s, Placed(b)), Shr(Clmul(a, b)))
  {
    hide Xor, Shr, Product;
    var body := a[..63];
    assert a == body + [false];
    ProductAppend(body, false, Placed(b));
    XorZero(Product(body, Placed(b)));
    ProductShr(body, Placed(b));
    ProductCons(s, body, Placed(b));
  }

  lemma ProductCons(s: bool, a: Bits, y: Elem)
    ensures Product([s] + a, y) == Xor(When(s, y), Product(a, Shr(y)))
  {
    assert ([s] + a)[1..] == a;
  }

  /** The half that gives its last bit away and gains a zero in front. */
  lemma ClmulHighHalf(a: Bits, b: Bits)
    requires |a| == |b| == 64
    ensures Clmul([false] + a[..63], b) == Shr(Xor(Clmul(a, b), When(Last(a), Zeros(64) + b)))
    ensures Last(Xor(Clmul(a, b), When(Last(a), Zeros(64) + b))) == false
  {
    hide Xor, Shr, Product;
    var body, y := a[..63], Placed(b);
    assert a == body + [Last(a)];
    ProductAppend(body, Last(a), y);
    assert ShrBy(y, 63) == Zeros(64) + b;
    var p, t := Product(body, y), When(Last(a), Zeros(64) + b);
    XorAssociative(p, t, t);
    XorZero(t);
    XorZero(p);
    ProductShr(body, y);
    ProductCons(false, body, y);
    XorZero(Shr(p));
    ProductEven(body, y, 63);
  }

  /** Products of fewer than `k` bits do not reach the last place when `y` ends in `k` zeros. */
  lemma {:induction false} ProductEven(a: Bits, y: Elem, k: nat)
    requires |a| <= k <= 128 && forall j :: 128 - k <= j < 128 ==> !y[j]
    ensures !Last(Product(a, y))
    decreases |a|
  {
    if a != [] {
      ProductEven(a[1..], Shr(y), k - 1);
    }
  }

  lemma {:induction false} ProductTop(a: Bits, y: Elem)
    requires !y[0]
    ensures !Product(a, y)[0]
    decreases |a|
  {
    if a != [] {
      ProductTop(a[1..], Shr(y));
    }
  }

  lemma ClmulEven(a: Bits, b: Bits)
    requires |a| == |b| == 64 && !Last(a)
    ensures !Last(Clmul(a, b))
  {
    hide Xor, Product;
    ClmulHighHalf(a, b);
    XorZero(Clmul(a, b));
  }

  // --------------------------------------------- the code multiplies

  /** Multiplication of the low half by x^128: what the reduction adds to the upper half. */
  function Dred(l: Elem): Elem { Spread(FoldLow(l)) }

  lemma DredLinear(x: Elem, y: Elem)
    ensures Dred(Xor(x, y)) == Xor(Dred(x), Dred(y))
  {
    hide FoldLow, Spread, Xor;
    FoldLowLinear(x, y);
    SpreadLinear(FoldLow(x), FoldLow(y));
  }

  /** A zero in the last place: the shifted half reduces to x times the reduction. */
  lemma DredShr(l: Elem)
    requires !Last(l)
    ensures Dred(Shr(l)) == Times(Dred(l))
  {
    hide Spread, FoldLow, Xor, Shr, One, R;
    var d := FoldLow(l);
    var t := Last(Spread(d));
    FoldLowShr(l);
    SpreadLinear(Shr(d), When(t, One()));
    SpreadShr(d);
    DredZero();
    SpreadOne();
    assert Spread(When(t, One())) == When(t, R());
  }

  /** Bits of a shifted register whose last bit is clear. */
  lemma BitShr(l: Elem, j: nat)
    requires !Last(l)
    ensures Bit(Shr(l), j) == Bit(l, j - 1)
  {
  }

  lemma FoldLowShrAt(l: Elem, j: nat)
    requires !Last(l) && j < 128
    ensures FoldLow(Shr(l))[j] == if j > 0 then FoldLow(l)[j - 1] else Last(Spread(FoldLow(l)))
  {
    hide Spread, FoldLow, Bit, Shr;
    FoldLowAt(Shr(l), j);
    BitShr(l, j);
    BitShr(l, j + 127);
    BitShr(l, j + 126);
    BitShr(l, j + 121);
    if j > 0 {
      FoldLowAt(l, j - 1);
    } else {
      FoldLowTail(l);
      SpreadLast(FoldLow(l));
      LowBits(l);
    }
  }

  lemma LowBits(l: Elem)
    requires !Last(l)
    ensures !Bit(l, -1) && l[127] == false
    ensures Bit(l, 126) == l[126] && Bit(l, 125) == l[125] && Bit(l, 120) == l[120]
  {
  }

  lemma FoldLowShr(l: Elem)
    requires !Last(l)
    ensures FoldLow(Shr(l)) == Xor(Shr(FoldLow(l)), When(Last(Spread(FoldLow(l))), One()))
  {
    hide Spread, FoldLow;
    var x, y := FoldLow(Shr(l)), Xor(Shr(FoldLow(l)), When(Last(Spread(FoldLow(l))), One()));
    forall j | 0 <= j < 128 ensures x[j] == y[j] {
      FoldLowShrAt(l, j);
    }
  }

  lemma FoldLowAt(l: Elem, j: nat)
    requires j < 128
    ensures FoldLow(l)[j] == (Bit(l, j) != ((Bit(l, j + 127) != Bit(l, j + 126)) != Bit(l, j + 121)))
  {
  }

  lemma SpreadLast(d: Elem)
    ensures Last(Spread(d)) == ((d[127] != d[126]) != (d[125] != d[120]))
  {
  }

  lemma RightShr(x: Bits, k: nat)
    requires |x| > 0
    ensures Right(Shr(x), k) == Shr(Right(x, k))
  {
  }

  lemma SpreadShr(d: Elem)
    ensures Spread(Shr(d)) == Shr(Spread(d))
  {
    hide Right, Shr, Xor;
    RightShr(d, 1);
    RightShr(d, 2);
    RightShr(d, 7);
    ShrLinear(Right(d, 1), Right(d, 2));
    ShrLinear(Xor(Right(d, 1), Right(d, 2)), Right(d, 7));
    ShrLinear(d, Xor(Xor(Right(d, 1), Right(d, 2)), Right(d, 7)));
  }

  lemma SpreadOne()
    ensures Spread(One()) == R()
  {
  }

  lemma DredZero()
    ensures Spread(Zeros(128)) == Zeros(128) && FoldLow(Zeros(128)) == Zeros(128)
  {
  }

  lemma FoldLowOne()
    ensures FoldLow(One()) == One()
  {
  }

  lemma DredOne()
    ensures Dred(One()) == R()
  {
    hide FoldLow, Spread, One, R;
    FoldLowOne();
    SpreadOne();
  }

  /** How the two registers of the unreduced product move when the first factor does. */
  ghost predicate MovedRight(hi: Elem, lo: Elem, hi': Elem, lo': Elem) {
    && !hi[0] && !lo[127]
    && (forall j :: 0 <= j < 128 ==> hi'[j] == (j > 0 && hi[j - 1]))
    && (forall j :: 0 <= j < 128 ==> lo'[j] == if j > 0 then lo[j - 1] else hi[127])
  }

  lemma ReduceMoved(hi: Elem, lo: Elem, hi': Elem, lo': Elem)
    requires MovedRight(hi, lo, hi', lo')
    ensures Reduce(hi', lo') == Times(Reduce(hi, lo))
  {
    hide Reduce, Upper, Lower, Spread, FoldLow, Times, Xor, MovedRight;
    var u, l := Upper(hi, lo), Lower(lo);
    ReduceIsWhole(hi, lo);
    ReduceIsWhole(hi', lo');
    HalvesMoved(hi, lo, hi', lo');
    DredLinear(Shr(l), When(Last(u), One()));
    DredShr(l);
    DredWhen(Last(u));
    calc {
      Reduce(hi', lo');
    ==
      Xor(Shr(u), Xor(Times(Dred(l)), When(Last(u), R())));
    == { XorAround(Shr(u), Times(Dred(l)), When(Last(u), R())); }
      Xor(Xor(Shr(u), When(Last(u), R())), Times(Dred(l)));
    == { TimesUnfold(u); }
      Xor(Times(u), Times(Dred(l)));
    == { TimesLinear(u, Dred(l)); }
      Times(Xor(u, Dred(l)));
    }
  }

  lemma TimesUnfold(u: Elem)
    ensures Xor(Shr(u), When(Last(u), R())) == Times(u)
  {
    hide Xor, Shr, R;
  }

  lemma XorAround(a: Bits, b: Bits, c: Bits)
    requires |a| == |b| == |c|
    ensures Xor(a, Xor(b, c)) == Xor(Xor(a, c), b)
  {
  }

  lemma DredWhen(t: bool)
    ensures Dred(When(t, One())) == When(t, R())
  {
    hide Spread, FoldLow, One, R;
    DredOne();
    DredZero();
    assert When(t, One()) == if t then One() else Zeros(128);
  }

  lemma HalvesMoved(hi: Elem, lo: Elem, hi': Elem, lo': Elem)
    requires MovedRight(hi, lo, hi', lo')
    ensures Upper(hi', lo') == Shr(Upper(hi, lo))
    ensures Lower(lo') == Xor(Shr(Lower(lo)), When(Last(Upper(hi, lo)), One()))
    ensures !Last(Lower(lo))
  {
  }

  lemma HighMoves(q: Elem, m: Elem, s: bool, b1: Bits, b0: Bits, q': Elem, m': Elem, j: nat)
    requires |b1| == |b0| == 64 && j < 128
    requires q' == Shr(Xor(q, When(s, Zeros(64) + b1)))
    requires m' == Xor(When(s, Placed(b1)), Shr(Xor(m, When(s, Zeros(64) + b0))))
    ensures HighPart(q', m')[j] == (j > 0 && HighPart(q, m)[j - 1])
  {
    if j > 64 {
      assert m'[j - 64] == ((s && b1[j - 65]) != m[j - 65]);
      assert q'[j] == (q[j - 1] != (s && b1[j - 65]));
    } else if j == 64 {
      assert !m'[0] && q'[64] == q[63];
    }
  }

  lemma LowMoves(p: Elem, q: Elem, m: Elem, s: bool, b1: Bits, b0: Bits, p': Elem, m': Elem, j: nat)
    requires |b1| == |b0| == 64 && !p[127] && j < 128
    requires q[127] == (s && b1[63]) && m[127] == (s && b0[63])
    requires p' == Xor(When(s, Placed(b0)), Shr(p))
    requires m' == Xor(When(s, Placed(b1)), Shr(Xor(m, When(s, Zeros(64) + b0))))
    ensures LowPart(p', m')[j] == if j > 0 then LowPart(p, m)[j - 1] else HighPart(q, m)[127]
  {
    if 0 < j < 64 {
      assert p'[j] == ((s && b0[j - 1]) != p[j - 1]);
      assert m'[j + 64] == (m[j + 63] != (s && b0[j - 1]));
    } else if j == 0 {
      assert !p'[0] && m'[64] == ((s && b1[63]) != m[63]);
    } else if j == 64 {
      assert p'[64] == ((s && b0[63]) != p[63]);
    } else {
      assert p'[j] == p[j - 1];
    }
  }

  lemma HighFirst(q: Elem, m: Elem)
    ensures HighPart(q, m)[0] == q[0]
  {
  }

  lemma LowLast(p: Elem, m: Elem)
    ensures LowPart(p, m)[127] == p[127]
  {
  }

  /** The bookkeeping of the four partial products when bit `s` passes from the high half to the low one. */
  lemma PartsMove(p: Elem, q: Elem, m: Elem, s: bool, b1: Bits, b0: Bits, p': Elem, q': Elem, m': Elem)
    requires |b1| == |b0| == 64 && !q[0] && !p[127]
    requires q[127] == (s && b1[63]) && m[127] == (s && b0[63])
    requires p' == Xor(When(s, Placed(b0)), Shr(p))
    requires q' == Shr(Xor(q, When(s, Zeros(64) + b1)))
    requires m' == Xor(When(s, Placed(b1)), Shr(Xor(m, When(s, Zeros(64) + b0))))
    ensures MovedRight(HighPart(q, m), LowPart(p, m), HighPart(q', m'), LowPart(p', m'))
  {
    hide HighPart, LowPart, Xor, When, Shr, Placed;
    HighFirst(q, m);
    LowLast(p, m);
    forall j | 0 <= j < 128
      ensures HighPart(q', m')[j] == (j > 0 && HighPart(q, m)[j - 1])
      ensures LowPart(p', m')[j] == if j > 0 then LowPart(p, m)[j - 1] else HighPart(q, m)[127]
    {
      HighMoves(q, m, s, b1, b0, q', m', j);
      LowMoves(p, q, m, s, b1, b0, p', m', j);
    }
  }

  function Mid(a: Elem, b: Elem): Elem { Xor(Clmul(Lo(a), Hi(b)), Clmul(Hi(a), Lo(b))) }

  lemma MulvShr(a: Elem, b: Elem)
    requires !Last(a)
    ensures Mulv(Shr(a), b) == Times(Mulv(a, b))
  {
    hide Reduce, Times, Clmul, Xor, Shr, HighPart, LowPart, When;
    var a1, a0, s := Hi(a), Lo(a), Last(Hi(a));
    HalvesOfShr(a);
    var p, q, m := Clmul(a0, Lo(b)), Clmul(a1, Hi(b)), Mid(a, b);
    var a1', a0' := [false] + a1[..63], [s] + a0[..63];
    var p', q', m' := Clmul(a0', Lo(b)), Clmul(a1', Hi(b)), Mid(Shr(a), b);
    ClmulLowHalf(a0, s, Lo(b));
    ClmulHighHalf(a1, Hi(b));
    MidMoves(a, b);
    ClmulTop(a1, Hi(b));
    ClmulEven(a0, Lo(b));
    LastOfSum(q, s, Hi(b));
    PartsMove(p, q, m, s, Hi(b), Lo(b), p', q', m');
    ReduceMoved(HighPart(q, m), LowPart(p, m), HighPart(q', m'), LowPart(p', m'));
  }

  lemma HalvesOfShr(a: Elem)
    ensures Hi(Shr(a)) == [false] + Hi(a)[..63]
    ensures Lo(Shr(a)) == [Last(Hi(a))] + Lo(a)[..63]
    ensures Last(Lo(a)) == Last(a)
  {
  }

  lemma ClmulTop(a: Bits, b: Bits)
    requires |a| == |b| == 64
    ensures !Clmul(a, b)[0]
  {
    ProductTop(a, [false] + b + Zeros(63));
  }

  lemma LastOfSum(q: Elem, s: bool, b: Bits)
    requires |b| == 64 && !Last(Xor(q, When(s, Zeros(64) + b)))
    ensures q[127] == (s && b[63])
  {
  }

  lemma MidMoves(a: Elem, b: Elem)
    requires !Last(a)
    ensures Mid(Shr(a), b) ==
            Xor(When(Last(Hi(a)), Placed(Hi(b))), Shr(Xor(Mid(a, b), When(Last(Hi(a)), Zeros(64) + Lo(b)))))
    ensures Mid(a, b)[127] == (Last(Hi(a)) && Lo(b)[63])
  {
    hide Clmul, Xor, Shr, When;
    var s, x, y := Last(Hi(a)), Clmul(Lo(a), Hi(b)), Clmul(Hi(a), Lo(b));
    var w, z := When(s, Placed(Hi(b))), When(s, Zeros(64) + Lo(b));
    HalvesOfShr(a);
    ClmulLowHalf(Lo(a), s, Hi(b));
    ClmulHighHalf(Hi(a), Lo(b));
    calc {
      Mid(Shr(a), b);
    ==
      Xor(Xor(w, Shr(x)), Shr(Xor(y, z)));
    == { XorAssociative(w, Shr(x), Shr(Xor(y, z))); ShrLinear(x, Xor(y, z)); XorAssociative(x, y, z); }
      Xor(w, Shr(Xor(Xor(x, y), z)));
    }
    ClmulEven(Lo(a), Hi(b));
    LastOfSum(y, s, Lo(b));
  }

  lemma ClmulZero(b: Bits)
    requires |b| == 64
    ensures Clmul(Zeros(64), b) == Zeros(128)
  {
    hide Clmul, Xor;
    XorZero(Zeros(64));
    ClmulBilinear(Zeros(64), Zeros(64), b, b);
    XorZero(Clmul(Zeros(64), b));
  }

  lemma ClmulOne(b: Bits)
    requires |b| == 64
    ensures Clmul([true] + Zeros(63), b) == Placed(b)
  {
    hide Xor, Shr, Product;
    ProductCons(true, Zeros(63), Placed(b));
    ProductZero(63, Shr(Placed(b)));
    XorZero(Placed(b));
  }

  lemma {:induction false} ProductZero(n: nat, y: Elem)
    ensures Product(Zeros(n), y) == Zeros(128)
  {
    hide Xor, Shr;
    if n > 0 {
      assert Zeros(n)[1..] == Zeros(n - 1);
      ProductZero(n - 1, Shr(y));
      XorZero(Zeros(128));
    }
  }

  lemma MulvOne(b: Elem)
    ensures Mulv(One(), b) == b
  {
    hide Reduce, Clmul, Xor, HighPart, LowPart, Upper, Lower, FoldLow, Spread;
    assert Hi(One()) == [true] + Zeros(63) && Lo(One()) == Zeros(64);
    ClmulZero(Lo(b));
    ClmulZero(Hi(b));
    ClmulOne(Lo(b));
    ClmulOne(Hi(b));
    var q, m := Placed(Hi(b)), Placed(Lo(b));
    XorZero(m);
    var hi, lo := HighPart(q, m), LowPart(Zeros(128), m);
    OneParts(b);
    ReduceIsWhole(hi, lo);
    DredZero();
    XorZero(b);
  }

  lemma OneParts(b: Elem)
    ensures var q, m := Placed(Hi(b)), Placed(Lo(b));
            var hi, lo := HighPart(q, m), LowPart(Zeros(128), m);
            Upper(hi, lo) == b && Lower(lo) == Zeros(128)
  {
  }

  lemma MulvLinear(a: Elem, a': Elem, b: Elem)
    ensures Mulv(Xor(a, a'), b) == Xor(Mulv(a, b), Mulv(a', b))
  {
    hide Reduce, Clmul, Xor, HighPart, LowPart;
    assert Hi(Xor(a, a')) == Xor(Hi(a), Hi(a')) && Lo(Xor(a, a')) == Xor(Lo(a), Lo(a'));
    ClmulBilinear(Lo(a), Lo(a'), Lo(b), Lo(b));
    ClmulBilinear(Hi(a), Hi(a'), Hi(b), Hi(b));
    ClmulBilinear(Lo(a), Lo(a'), Hi(b), Hi(b));
    ClmulBilinear(Hi(a), Hi(a'), Lo(b), Lo(b));
    var p, q, m := Clmul(Lo(a), Lo(b)), Clmul(Hi(a), Hi(b)), Mid(a, b);
    var p', q', m' := Clmul(Lo(a'), Lo(b)), Clmul(Hi(a'), Hi(b)), Mid(a', b);
    XorSwap(Clmul(Lo(a), Hi(b)), Clmul(Lo(a'), Hi(b)), Clmul(Hi(a), Lo(b)), Clmul(Hi(a'), Lo(b)));
    PartsLinear(p, q, m, p', q', m');
    ReduceLinear(HighPart(q, m), LowPart(p, m), HighPart(q', m'), LowPart(p', m'));
  }

  lemma PartsLinear(p: Elem, q: Elem, m: Elem, p': Elem, q': Elem, m': Elem)
    ensures HighPart(Xor(q, q'), Xor(m, m')) == Xor(HighPart(q, m), HighPart(q', m'))
    ensures LowPart(Xor(p, p'), Xor(m, m')) == Xor(LowPart(p, m), LowPart(p', m'))
  {
    hide Xor, Left, Right;
    ShiftsLinear(m, m', 64);
    XorSwap(q, q', Right(m, 64), Right(m', 64));
    XorSwap(p, p', Left(m, 64), Left(m', 64));
  }

  /** `mulv` is the multiplication of section 6.3 of SP 800-38D. */
  lemma MulvIsMul(a: Elem, b: Elem)
    ensures Mulv(a, b) == Mul(a, b)
  {
    hide Mulv, Mul, Xor, Shr, Times, One;
    var f := (x: Elem) => Mulv(x, b);
    forall x: Elem, y: Elem ensures f(Xor(x, y)) == Xor(f(x), f(y)) {
      MulvLinear(x, y, b);
    }
    forall x: Elem | !Last(x) ensures f(Shr(x)) == Times(f(x)) {
      MulvShr(x, b);
    }
    Determined(f, a);
    MulvOne(b);
  }
}
