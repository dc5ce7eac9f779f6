/**
 Unbiased random numbers below a bound: the rejection threshold is 2^32 modulo the bound,
 and every residue has the same number of accepted 32-bit values.
 */
module Uniform {
  import opened Machine

  /** `1U + ~upper_bound`. */
  function Negated(bound: u32): u32 { Wrap32(1 + (U32 - 1 - bound)) }

  /** `min`. */
  function Threshold(bound: u32): u32
    requires bound > 0
  {
    Negated(bound) % bound
  }

  /** The threshold is 2^32 modulo the bound. */
  lemma ThresholdIsRemainder(bound: u32)
    requires bound >= 1
    ensures Threshold(bound) == U32 % bound && Threshold(bound) < bound
  {
    assert Negated(bound) == U32 - bound;
    ModShift(U32 - bound, 1, bound);
  }

  /** The accepted values below `n` that give `residue`. */
  function Accepted(bound: u32, residue: nat, n: nat): nat
    requires bound > 0
  {
    if n == 0 then 0
    else Accepted(bound, residue, n - 1) + (if n - 1 >= Threshold(bound) && (n - 1) % bound == residue then 1 else 0)
  }

  /** Rounds of the bound above the threshold. */
  function Rounds(bound: u32): nat
    requires bound > 0
  {
    Quotient(U32, bound)
  }

  /** One whole round from `start` holds every residue once. */
  lemma {:induction false} OneRound(bound: u32, residue: nat, start: nat, k: nat)
    requires residue < bound && Threshold(bound) <= start && k <= bound
    ensures Accepted(bound, residue, start + k)
            == Accepted(bound, residue, start) + (if Offset(bound, residue, start) < k then 1 else 0)
    decreases k
  {
    hide Threshold;
    if k > 0 {
      OneRound(bound, residue, start, k - 1);
      OffsetHits(bound, residue, start, k - 1);
    }
  }

  /** How far from `start` the residue comes next. */
  function Offset(bound: u32, residue: nat, start: nat): (k: nat)
    requires residue < bound
    ensures k < bound
  {
    (residue - start) % bound
  }

  lemma OffsetHits(bound: u32, residue: nat, start: nat, j: nat)
    requires residue < bound && j < bound
    ensures (start + j) % bound == residue <==> j == Offset(bound, residue, start)
  {
    var o := Offset(bound, residue, start);
    ModAdd(start, residue - start, bound);
    ModAdd(start, o, bound);
    ModUnique(residue, 0, residue, bound);
    ModUnique(o, 0, o, bound);
    assert (start + o) % bound == residue;
    if (start + j) % bound == residue {
      SameOffset(bound, start, j, o);
    }
  }

  lemma SameOffset(bound: u32, start: nat, j: nat, o: nat)
    requires bound > 0 && j < bound && o < bound && (start + j) % bound == (start + o) % bound
    ensures j == o
  {
    var q, q' := (start + j) / bound, (start + o) / bound;
    EuclidBounds(start + j, bound);
    EuclidBounds(start + o, bound);
    assert (q - q') * bound == q * bound - q' * bound;
    EuclidUnique(0, j, q - q', o, bound);
  }

  lemma {:induction false} NothingBelow(bound: u32, residue: nat, n: nat)
    requires bound > 0 && n <= Threshold(bound)
    ensures Accepted(bound, residue, n) == 0
  {
    hide Threshold;
    if n > 0 {
      NothingBelow(bound, residue, n - 1);
    }
  }

  lemma {:induction false} ManyRounds(bound: u32, residue: nat, rounds: nat)
    requires residue < bound
    ensures Accepted(bound, residue, Threshold(bound) + rounds * bound) == rounds
    decreases rounds
  {
    hide Threshold;
    if rounds == 0 {
      NothingBelow(bound, residue, Threshold(bound));
    } else {
      var start := Threshold(bound) + (rounds - 1) * bound;
      ManyRounds(bound, residue, rounds - 1);
      assert Threshold(bound) + rounds * bound == start + bound;
      OneRound(bound, residue, start, bound);
    }
  }

  /** Every residue has the same number of accepted values: the result is exactly uniform. */
  lemma EveryResidueAlike(bound: u32, residue: nat)
    requires residue < bound
    ensures Accepted(bound, residue, U32) == Rounds(bound)
  {
    hide Threshold;
    ThresholdIsRemainder(bound);
    EuclidBounds(U32, bound);
    ManyRounds(bound, residue, Rounds(bound));
  }

  /** The first draw from `i` on that is not rejected, if there is one among them. */
  function FirstAccepted(draws: seq<u32>, bound: u32, i: nat): nat
    requires bound > 0 && i <= |draws|
    decreases |draws| - i
  {
    if i == |draws| || draws[i] >= Threshold(bound) then i else FirstAccepted(draws, bound, i + 1)
  }

  /** The draw taken is the first one that is not below 2^32 modulo the bound. */
  lemma {:induction false} FirstIsFirst(draws: seq<u32>, bound: u32, i: nat)
    requires bound > 0 && i <= |draws|
    ensures var k := FirstAccepted(draws, bound, i);
            && i <= k <= |draws| && (k < |draws| ==> draws[k] >= U32 % bound)
            && forall j :: i <= j < k ==> draws[j] < U32 % bound
    decreases |draws| - i
  {
    hide Threshold;
    ThresholdIsRemainder(bound);
    if i < |draws| && draws[i] < Threshold(bound) {
      FirstIsFirst(draws, bound, i + 1);
    }
  }

  /** `randombytes_uniform`: the random source's own function if it has one, otherwise the loop on a sequence of draws
      in which one is accepted. */
  method Draw(bound: u32, own: Option<u32 -> u32>, draws: seq<u32>) returns (r: u32)
    requires own == None && bound >= 2 ==> exists i :: 0 <= i < |draws| && draws[i] >= Threshold(bound)
    ensures own.Some? ==> r == own.value(bound)
    ensures own == None && bound < 2 ==> r == 0
    ensures own == None && bound >= 2 ==>
        var i := FirstAccepted(draws, bound, 0); i < |draws| && draws[i] >= U32 % bound && r == draws[i] % bound < bound
  {
    hide Threshold;
    if own.Some? {
      return own.value(bound);
    }
    if bound < 2 {
      return 0;
    }
    ThresholdIsRemainder(bound);
    var min := Threshold(bound);
    ghost var k :| 0 <= k < |draws| && draws[k] >= min;
    var i := 0;
    while draws[i] < min
      invariant i <= k && FirstAccepted(draws, bound, 0) == FirstAccepted(draws, bound, i)
      decreases k - i
    {
      i := i + 1;
    }
    RemainderBound(draws[i], bound);
    r := draws[i] % bound;
  }
}
