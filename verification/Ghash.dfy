/**
 GHASH (section 6.4 of NIST SP 800-38D) and the two ways the AES-NI code updates its
 accumulator: one block at a time, and several blocks at once with powers of H, Karatsuba
 middle products and a single reduction.
 */
module Ghash {
  import opened Gf128
  import opened GhashCode

  /** Block-by-block GHASH from the running value `y`. */
  function Hash(h: Elem, y: Elem, blocks: seq<Elem>): Elem
    decreases |blocks|
  {
    if blocks == [] then y
    else Hash(h, Mul(Xor(y, blocks[0]), h), blocks[1..])
  }

  lemma {:induction false} HashConcat(h: Elem, y: Elem, a: seq<Elem>, b: seq<Elem>)
    ensures Hash(h, y, a + b) == Hash(h, Hash(h, y, a), b)
    decreases |a|
  {
    hide Mul, Xor;
    if a == [] {
      assert a + b == b;
    } else {
      assert (a + b)[1..] == a[1..] + b;
      HashConcat(h, Mul(Xor(y, a[0]), h), a[1..], b);
    }
  }

  lemma HashSnoc(h: Elem, y: Elem, a: seq<Elem>, x: Elem)
    ensures Hash(h, y, a + [x]) == Mul(Xor(Hash(h, y, a), x), h)
  {
    hide Mul, Xor;
    HashConcat(h, y, a, [x]);
    var t := Mul(Xor(Hash(h, y, a), x), h);
    assert [x][1..] == [];
    assert Hash(h, t, []) == t;
  }

  // -------------------------------------------------- one block at a time

  /** `addmulreduce`: add the block to the accumulator, multiply by H. */
  function AddMulReduce(acc: Elem, x: Elem, h: Elem): Elem { Mulv(Xor(x, acc), h) }

  lemma AddMulReduceIsStep(acc: Elem, x: Elem, h: Elem)
    ensures AddMulReduce(acc, x, h) == Hash(h, acc, [x])
  {
    hide Mul, Mulv, Xor;
    MulvIsMul(Xor(x, acc), h);
    XorCommutative(x, acc);
    assert [] + [x] == [x];
    HashSnoc(h, acc, [], x);
  }

  // ---------------------------------------------------- several at once

  function LowSum(hs: seq<Elem>, xs: seq<Elem>): Elem
    requires |hs| == |xs|
    decreases |hs|
  {
    if hs == [] then Zeros(128)
    else var k := |hs| - 1; Xor(LowSum(hs[..k], xs[..k]), Clmul(Lo(hs[k]), Lo(xs[k])))
  }

  function HighSum(hs: seq<Elem>, xs: seq<Elem>): Elem
    requires |hs| == |xs|
    decreases |hs|
  {
    if hs == [] then Zeros(128)
    else var k := |hs| - 1; Xor(HighSum(hs[..k], xs[..k]), Clmul(Hi(hs[k]), Hi(xs[k])))
  }

  function Karatsuba(h: Elem, x: Elem): Elem { Clmul(Xor(Hi(h), Lo(h)), Xor(Hi(x), Lo(x))) }

  function CrossSum(hs: seq<Elem>, xs: seq<Elem>): Elem
    requires |hs| == |xs|
    decreases |hs|
  {
    if hs == [] then Zeros(128)
    else var k := |hs| - 1; Xor(CrossSum(hs[..k], xs[..k]), Karatsuba(hs[k], xs[k]))
  }

  /** The products of `hs` and `xs` added up before one reduction. */
  function Aggregate(hs: seq<Elem>, xs: seq<Elem>): Elem
    requires |hs| == |xs|
  {
    var lo, hi := LowSum(hs, xs), HighSum(hs, xs);
    var mid := Xor(Xor(CrossSum(hs, xs), lo), hi);
    Reduce(HighPart(hi, mid), LowPart(lo, mid))
  }

  /** `ADDMULREDUCE4` and `ADDMULREDUCE8`: the accumulator joins the last operand, the earliest block. */
  function AddMulReduceMany(hs: seq<Elem>, xs: seq<Elem>, acc: Elem): Elem
    requires |hs| == |xs| > 0
  {
    Aggregate(hs, LastPlus(xs, acc))
  }

  function LastPlus(xs: seq<Elem>, acc: Elem): (r: seq<Elem>)
    requires xs != []
    ensures |r| == |xs|
  {
    xs[|xs| - 1 := Xor(xs[|xs| - 1], acc)]
  }

  /** H, H^2, ... as the code chains them with `mulv`. */
  function Powers(h: Elem, n: nat): (p: seq<Elem>)
    ensures |p| == n
  {
    if n == 0 then [] else
    if n == 1 then [h]
    else var p := Powers(h, n - 1); p + [Mulv(p[n - 2], h)]
  }

  function Reversed(xs: seq<Elem>): (r: seq<Elem>)
    ensures |r| == |xs|
  {
    if xs == [] then [] else Reversed(xs[1..]) + [xs[0]]
  }

  /** The sum of the products in the field. */
  function Dot(hs: seq<Elem>, xs: seq<Elem>): Elem
    requires |hs| == |xs|
    decreases |hs|
  {
    if hs == [] then Zeros(128)
    else var k := |hs| - 1; Xor(Dot(hs[..k], xs[..k]), Mul(hs[k], xs[k]))
  }

  /** (h1 + h0)(x1 + x0) - h1 x1 - h0 x0 is the middle product. */
  lemma KaratsubaMid(h: Elem, x: Elem)
    ensures Xor(Karatsuba(h, x), Xor(Clmul(Lo(h), Lo(x)), Clmul(Hi(h), Hi(x)))) == Mid(h, x)
  {
    hide Clmul, Xor, Hi, Lo;
    var s := Xor(Hi(x), Lo(x));
    ClmulBilinear(Hi(h), Lo(h), s, s);
    ClmulBilinear(Hi(h), Hi(h), Hi(x), Lo(x));
    ClmulBilinear(Lo(h), Lo(h), Hi(x), Lo(x));
    Cancel(Clmul(Hi(h), Hi(x)), Clmul(Hi(h), Lo(x)), Clmul(Lo(h), Hi(x)), Clmul(Lo(h), Lo(x)));
  }

  lemma Cancel(a: Bits, b: Bits, c: Bits, d: Bits)
    requires |a| == |b| == |c| == |d|
    ensures Xor(Xor(Xor(a, b), Xor(c, d)), Xor(d, a)) == Xor(c, b)
  {
  }

  /** One more pair adds its product. */
  lemma AggregateStep(hs: seq<Elem>, xs: seq<Elem>)
    requires |hs| == |xs| > 0
    ensures var k := |hs| - 1;
            Aggregate(hs, xs) == Xor(Aggregate(hs[..k], xs[..k]), Mulv(hs[k], xs[k]))
  {
    hide Clmul, Xor, Reduce, HighPart, LowPart, Karatsuba;
    var k := |hs| - 1;
    var lo, hi, cr := LowSum(hs[..k], xs[..k]), HighSum(hs[..k], xs[..k]), CrossSum(hs[..k], xs[..k]);
    var p, q, r := Clmul(Lo(hs[k]), Lo(xs[k])), Clmul(Hi(hs[k]), Hi(xs[k])), Karatsuba(hs[k], xs[k]);
    var mid, m := Xor(Xor(cr, lo), hi), Mid(hs[k], xs[k]);
    KaratsubaMid(hs[k], xs[k]);
    SixSum(cr, r, lo, p, hi, q);
    PartsLinear(lo, hi, mid, p, q, m);
    ReduceLinear(HighPart(hi, mid), LowPart(lo, mid), HighPart(q, m), LowPart(p, m));
  }

  lemma SixSum(a: Bits, a': Bits, b: Bits, b': Bits, c: Bits, c': Bits)
    requires |a| == |a'| == |b| == |b'| == |c| == |c'|
    ensures Xor(Xor(Xor(a, a'), Xor(b, b')), Xor(c, c')) == Xor(Xor(Xor(a, b), c), Xor(a', Xor(b', c')))
  {
  }

  /** A single reduction of the summed products is the sum of the field products. */
  lemma {:induction false} AggregateIsDot(hs: seq<Elem>, xs: seq<Elem>)
    requires |hs| == |xs|
    ensures Aggregate(hs, xs) == Dot(hs, xs)
    decreases |hs|
  {
    hide Reduce, Mul, Mulv, Xor, Aggregate;
    if hs == [] {
      AggregateNone();
    } else {
      var k := |hs| - 1;
      AggregateStep(hs, xs);
      AggregateIsDot(hs[..k], xs[..k]);
      MulvIsMul(hs[k], xs[k]);
    }
  }

  lemma AggregateNone()
    ensures Aggregate([], []) == Zeros(128)
  {
    hide Reduce, Xor, HighPart, LowPart;
    var z := Zeros(128);
    XorZero(z);
    PartsLinear(z, z, z, z, z, z);
    XorZero(HighPart(z, z));
    XorZero(LowPart(z, z));
    ReduceLinear(z, z, z, z);
    XorZero(Reduce(z, z));
  }

  /** Multiplying every coefficient multiplies the sum. */
  lemma {:induction false} DotTimes(hs: seq<Elem>, gs: seq<Elem>, xs: seq<Elem>, h: Elem)
    requires |hs| == |gs| == |xs|
    requires forall i :: 0 <= i < |hs| ==> gs[i] == Mul(hs[i], h)
    ensures Dot(gs, xs) == Mul(Dot(hs, xs), h)
    decreases |hs|
  {
    hide Mul, Xor;
    if hs == [] {
      MulZero(h);
    } else {
      var k := |hs| - 1;
      DotTimes(hs[..k], gs[..k], xs[..k], h);
      MulDistributes(Dot(hs[..k], xs[..k]), Mul(hs[k], xs[k]), h);
      MulAssociative(hs[k], h, xs[k]);
      MulCommutative(h, xs[k]);
      MulAssociative(hs[k], xs[k], h);
    }
  }

  lemma MulZero(h: Elem)
    ensures Mul(Zeros(128), h) == Zeros(128)
  {
    hide Mul, Xor;
    XorZero(Zeros(128));
    MulDistributes(Zeros(128), Zeros(128), h);
    XorZero(Mul(Zeros(128), h));
  }

  lemma {:induction false} DotCons(h: Elem, hs: seq<Elem>, x: Elem, xs: seq<Elem>)
    requires |hs| == |xs|
    ensures Dot([h] + hs, [x] + xs) == Xor(Mul(h, x), Dot(hs, xs))
    decreases |hs|
  {
    hide Mul, Xor;
    if hs == [] {
      assert ([h] + hs)[..0] == [] && ([x] + xs)[..0] == [];
      XorZero(Mul(h, x));
    } else {
      var k := |hs| - 1;
      assert ([h] + hs)[..k + 1] == [h] + hs[..k] && ([x] + xs)[..k + 1] == [x] + xs[..k];
      DotCons(h, hs[..k], x, xs[..k]);
      XorAssociative(Mul(h, x), Dot(hs[..k], xs[..k]), Mul(hs[k], xs[k]));
    }
  }

  lemma {:induction false} PowersShift(h: Elem, n: nat)
    requires n > 0
    ensures Powers(h, n)[0] == h
    ensures forall i :: 0 < i < n ==> Powers(h, n)[i] == Mul(Powers(h, n - 1)[i - 1], h)
  {
    hide Mul, Mulv;
    if n > 1 {
      PowersShift(h, n - 1);
      MulvIsMul(Powers(h, n - 1)[n - 2], h);
      forall i | 0 < i < n ensures Powers(h, n)[i] == Mul(Powers(h, n - 1)[i - 1], h) {
        if i < n - 1 {
          assert Powers(h, n - 1)[i - 1] == Powers(h, n - 2)[i - 1];
        }
      }
    }
  }

  lemma {:induction false} ReversedSnoc(xs: seq<Elem>, x: Elem)
    ensures Reversed(xs + [x]) == [x] + Reversed(xs)
  {
    if xs != [] {
      assert (xs + [x])[1..] == xs[1..] + [x];
      ReversedSnoc(xs[1..], x);
    }
  }

  /** Horner's rule: the weighted sum with decreasing powers is the iteration. */
  lemma {:induction false} DotIsHash(h: Elem, y: Elem, blocks: seq<Elem>)
    requires blocks != []
    ensures Dot(Powers(h, |blocks|), LastPlus(Reversed(blocks), y)) == Hash(h, y, blocks)
    decreases |blocks|
  {
    hide Mul, Xor, Dot, Hash, Powers, LastPlus;
    var n := |blocks|;
    var front, x := blocks[..n - 1], blocks[n - 1];
    assert blocks == front + [x];
    ReversedSnoc(front, x);
    HashSnoc(h, y, front, x);
    if n == 1 {
      assert front == [];
      DotIsHashOne(h, y, x);
    } else {
      DotIsHash(h, y, front);
      DotIsHashMore(h, LastPlus(Reversed(front), y), x);
      LastPlusCons(x, Reversed(front), y);
    }
  }

  lemma LastPlusCons(x: Elem, xs: seq<Elem>, y: Elem)
    requires xs != []
    ensures LastPlus([x] + xs, y) == [x] + LastPlus(xs, y)
  {
    hide Xor;
  }

  lemma DotIsHashOne(h: Elem, y: Elem, x: Elem)
    ensures Dot(Powers(h, 1), LastPlus(Reversed([x]), y)) == Mul(Xor(Hash(h, y, []), x), h)
  {
    hide Mul, Xor, Dot;
    assert LastPlus(Reversed([x]), y) == [Xor(x, y)] + [] && Powers(h, 1) == [h] + [];
    DotCons(h, [], Xor(x, y), []);
    DotEmpty();
    XorZero(Mul(h, Xor(x, y)));
    MulCommutative(h, Xor(x, y));
    XorCommutative(x, y);
  }

  lemma DotIsHashMore(h: Elem, rs: seq<Elem>, x: Elem)
    requires rs != []
    ensures Dot(Powers(h, |rs| + 1), [x] + rs) == Mul(Xor(Dot(Powers(h, |rs|), rs), x), h)
  {
    hide Mul, Xor, Dot, Powers;
    var n := |rs|;
    PowersShift(h, n + 1);
    var ps := Powers(h, n + 1);
    assert ps == [h] + ps[1..];
    DotCons(h, ps[1..], x, rs);
    DotTimes(Powers(h, n), ps[1..], rs, h);
    MulCommutative(h, x);
    MulDistributes(x, Dot(Powers(h, n), rs), h);
    XorCommutative(x, Dot(Powers(h, n), rs));
  }

  lemma DotEmpty()
    ensures Dot([], []) == Zeros(128)
  {
  }

  /** The aggregated update equals as many block-by-block steps. */
  lemma ManyIsHash(h: Elem, acc: Elem, blocks: seq<Elem>)
    requires blocks != []
    ensures AddMulReduceMany(Powers(h, |blocks|), Reversed(blocks), acc) == Hash(h, acc, blocks)
  {
    hide Aggregate, Dot, Hash, Xor, LastPlus;
    AggregateIsDot(Powers(h, |blocks|), LastPlus(Reversed(blocks), acc));
    DotIsHash(h, acc, blocks);
  }
}
