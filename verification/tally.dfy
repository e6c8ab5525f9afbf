/** Empirical p-values: the fraction of null trials at least as extreme as the
    observed statistic, with the epsilon tolerance at the boundary. */
module NullTally {
  import opened Numbers

  /** The tolerance `utils.epsilon` added or subtracted at every boundary
      comparison. Its numeric value lives in a module that is not part of this
      model; the proofs use only 0 < Epsilon < 1. */
  const Epsilon: real := 0.0001

  /** Upper: larger values are more extreme (recurrence, delta entropy,
      deleterious count). Lower: smaller values are more extreme (entropy). */
  datatype Tail = Upper | Lower

  predicate AtLeastAsExtreme(tail: Tail, nullValue: real, observed: real) {
    match tail
    case Upper => nullValue + Epsilon >= observed
    case Lower => nullValue - Epsilon <= observed
  }

  /** Indices of the null trials at least as extreme as the observed value. */
  function ExtremeTrials(tail: Tail, nulls: seq<real>, observed: real): set<nat> {
    set i: nat | i < |nulls| && AtLeastAsExtreme(tail, nulls[i], observed)
  }

  /** `sum([1 for x in nulls if ...])`. */
  function CountExtreme(tail: Tail, nulls: seq<real>, observed: real): (c: nat)
    ensures c <= |nulls|
    ensures c == 0 <==> forall i :: 0 <= i < |nulls| ==> !AtLeastAsExtreme(tail, nulls[i], observed)
    ensures c == |nulls| <==> forall i :: 0 <= i < |nulls| ==> AtLeastAsExtreme(tail, nulls[i], observed)
  {
    if |nulls| == 0 then 0
    else
      var init := nulls[..|nulls| - 1];
      assert forall i :: 0 <= i < |init| ==> init[i] == nulls[i];
      CountExtreme(tail, init, observed)
        + (if AtLeastAsExtreme(tail, nulls[|nulls| - 1], observed) then 1 else 0)
  }

  /** The running count is the size of the set of extreme trials. */
  lemma {:induction false} CountIsCardinality(tail: Tail, nulls: seq<real>, observed: real)
    ensures CountExtreme(tail, nulls, observed) == |ExtremeTrials(tail, nulls, observed)|
  {
    if |nulls| > 0 {
      var n := |nulls| - 1;
      CountIsCardinality(tail, nulls[..n], observed);
      ExtremeTrialsSnoc(tail, nulls, observed);
    }
  }

  /** Extending the trials by one adds the new index exactly when that trial
      is extreme. */
  lemma ExtremeTrialsSnoc(tail: Tail, nulls: seq<real>, observed: real)
    requires |nulls| > 0
    ensures var n := |nulls| - 1;
            var before := ExtremeTrials(tail, nulls[..n], observed);
            && n !in before
            && ExtremeTrials(tail, nulls, observed)
               == if AtLeastAsExtreme(tail, nulls[n], observed) then before + {n} else before
  {
  }

  /** The empirical p-value: extreme-trial count over the number of permutations. */
  function EmpiricalPValue(tail: Tail, nulls: seq<real>, observed: real, numPermutations: nat): (p: real)
    requires numPermutations >= 1 && |nulls| == numPermutations
    ensures 0.0 <= p <= 1.0
    ensures p == |ExtremeTrials(tail, nulls, observed)| as real / numPermutations as real
    ensures p == 0.0 <==> forall i :: 0 <= i < |nulls| ==> !AtLeastAsExtreme(tail, nulls[i], observed)
    ensures p == 1.0 <==> forall i :: 0 <= i < |nulls| ==> AtLeastAsExtreme(tail, nulls[i], observed)
  {
    CountIsCardinality(tail, nulls, observed);
    var c := CountExtreme(tail, nulls, observed);
    FractionBounds(c, numPermutations);
    c as real / numPermutations as real
  }

  /** A count c out of n trials gives a fraction in [0, 1], 0 only for c = 0 and
      1 only for c = n. */
  lemma FractionBounds(c: nat, n: nat)
    requires 1 <= n && c <= n
    ensures 0.0 <= c as real / n as real <= 1.0
    ensures c as real / n as real == 0.0 <==> c == 0
    ensures c as real / n as real == 1.0 <==> c == n
  {
    var f := c as real / n as real;
    assert f * n as real == c as real;
    if f == 1.0 { assert c as real == n as real; }
    if c == n { assert f == 1.0; }
  }

  lemma FractionMonotone(c1: nat, c2: nat, n: nat)
    requires 1 <= n && c1 <= c2
    ensures c1 as real / n as real <= c2 as real / n as real
  {
    var f1 := c1 as real / n as real;
    var f2 := c2 as real / n as real;
    assert f1 * n as real == c1 as real;
    assert f2 * n as real == c2 as real;
  }

  /** p-value where larger is more extreme: trials with null + epsilon >= observed. */
  function UpperPValue(nulls: seq<real>, observed: real, numPermutations: nat): (p: real)
    requires numPermutations >= 1 && |nulls| == numPermutations
    ensures 0.0 <= p <= 1.0
    ensures p == |set i: nat | i < |nulls| && nulls[i] + Epsilon >= observed| as real
                 / numPermutations as real
  {
    assert ExtremeTrials(Upper, nulls, observed)
           == set i: nat | i < |nulls| && nulls[i] + Epsilon >= observed;
    EmpiricalPValue(Upper, nulls, observed, numPermutations)
  }

  /** p-value where smaller is more extreme: trials with null - epsilon <= observed. */
  function LowerPValue(nulls: seq<real>, observed: real, numPermutations: nat): (p: real)
    requires numPermutations >= 1 && |nulls| == numPermutations
    ensures 0.0 <= p <= 1.0
    ensures p == |set i: nat | i < |nulls| && nulls[i] - Epsilon <= observed| as real
                 / numPermutations as real
  {
    assert ExtremeTrials(Lower, nulls, observed)
           == set i: nat | i < |nulls| && nulls[i] - Epsilon <= observed;
    EmpiricalPValue(Lower, nulls, observed, numPermutations)
  }

  /** Upper-tail p-value of an integer count: the tolerance drops out and the
      p-value is the fraction of trials whose count reaches the observed one. */
  function CountPValue(nulls: seq<int>, observed: int, numPermutations: nat): (p: real)
    requires numPermutations >= 1 && |nulls| == numPermutations
    ensures 0.0 <= p <= 1.0
    ensures p == |set i: nat | i < |nulls| && nulls[i] >= observed| as real / numPermutations as real
  {
    var reals := AsReals(nulls);
    assert ExtremeTrials(Upper, reals, observed as real)
           == set i: nat | i < |nulls| && nulls[i] >= observed by {
      forall i | 0 <= i < |nulls| {
        IntegerUpperIsExact(nulls[i], observed);
      }
    }
    EmpiricalPValue(Upper, reals, observed as real, numPermutations)
  }

  /** For integer statistics the tolerance changes nothing: `x + eps >= y`
      exactly when `x >= y`. */
  lemma IntegerUpperIsExact(x: int, y: int)
    ensures AtLeastAsExtreme(Upper, x as real, y as real) <==> x >= y
  {
    if x < y {
      assert x as real + 1.0 <= y as real;
    }
  }

  /** Raising the observed value never raises an upper-tail count. */
  lemma {:induction false} UpperCountAntitone(nulls: seq<real>, lo: real, hi: real)
    requires lo <= hi
    ensures CountExtreme(Upper, nulls, hi) <= CountExtreme(Upper, nulls, lo)
  {
    if |nulls| > 0 {
      UpperCountAntitone(nulls[..|nulls| - 1], lo, hi);
    }
  }

  /** Lowering the observed value never raises a lower-tail count. */
  lemma {:induction false} LowerCountMonotone(nulls: seq<real>, lo: real, hi: real)
    requires lo <= hi
    ensures CountExtreme(Lower, nulls, lo) <= CountExtreme(Lower, nulls, hi)
  {
    if |nulls| > 0 {
      LowerCountMonotone(nulls[..|nulls| - 1], lo, hi);
    }
  }

  /** A larger observed value never increases an upper-tail p-value. */
  lemma UpperPValueAntitone(nulls: seq<real>, lo: real, hi: real, numPermutations: nat)
    requires numPermutations >= 1 && |nulls| == numPermutations && lo <= hi
    ensures EmpiricalPValue(Upper, nulls, hi, numPermutations)
            <= EmpiricalPValue(Upper, nulls, lo, numPermutations)
  {
    UpperCountAntitone(nulls, lo, hi);
    FractionMonotone(CountExtreme(Upper, nulls, hi), CountExtreme(Upper, nulls, lo), numPermutations);
  }

  /** A smaller observed value never increases a lower-tail p-value. */
  lemma LowerPValueMonotone(nulls: seq<real>, lo: real, hi: real, numPermutations: nat)
    requires numPermutations >= 1 && |nulls| == numPermutations && lo <= hi
    ensures EmpiricalPValue(Lower, nulls, lo, numPermutations)
            <= EmpiricalPValue(Lower, nulls, hi, numPermutations)
  {
    LowerCountMonotone(nulls, lo, hi);
    FractionMonotone(CountExtreme(Lower, nulls, lo), CountExtreme(Lower, nulls, hi), numPermutations);
  }

  /** Raising null values trial by trial never lowers an upper-tail count. */
  lemma {:induction false} UpperCountPointwise(a: seq<real>, b: seq<real>, observed: real)
    requires |a| == |b|
    requires forall i :: 0 <= i < |a| ==> a[i] <= b[i]
    ensures CountExtreme(Upper, a, observed) <= CountExtreme(Upper, b, observed)
  {
    if |a| > 0 {
      UpperCountPointwise(a[..|a| - 1], b[..|b| - 1], observed);
    }
  }

  /** Counting is additive over concatenated null samples. */
  lemma {:induction false} CountConcat(tail: Tail, a: seq<real>, b: seq<real>, observed: real)
    ensures CountExtreme(tail, a + b, observed)
            == CountExtreme(tail, a, observed) + CountExtreme(tail, b, observed)
    decreases |b|
  {
    if |b| > 0 {
      var b' := b[..|b| - 1];
      assert (a + b)[..|a + b| - 1] == a + b';
      var last := b[|b| - 1];
      assert (a + b)[|a + b| - 1] == last;
      var hit := if AtLeastAsExtreme(tail, last, observed) then 1 else 0;
      assert CountExtreme(tail, a + b, observed) == CountExtreme(tail, a + b', observed) + hit;
      assert CountExtreme(tail, b, observed) == CountExtreme(tail, b', observed) + hit;
      CountConcat(tail, a, b', observed);
    } else {
      assert a + b == a;
    }
  }

  /** Trial order does not matter: two null samples holding the same values
      give the same count. */
  lemma {:induction false} CountOrderFree(tail: Tail, a: seq<real>, b: seq<real>, observed: real)
    requires multiset(a) == multiset(b)
    ensures CountExtreme(tail, a, observed) == CountExtreme(tail, b, observed)
    decreases |a|
  {
    if |a| == 0 {
      assert |b| == |multiset(b)| == 0;
    } else {
      var x := a[|a| - 1];
      var a' := a[..|a| - 1];
      assert x in multiset(b);
      var i :| 0 <= i < |b| && b[i] == x;
      var b' := b[..i] + b[i + 1..];
      RemoveOne(a, |a| - 1, b, i);
      CountOrderFree(tail, a', b', observed);
      CountWithout(tail, b, i, observed);
      CountWithout(tail, a, |a| - 1, observed);
    }
  }

  /** Removing one copy of the same value from two equal multisets leaves equal multisets. */
  lemma RemoveOne(a: seq<real>, i: nat, b: seq<real>, j: nat)
    requires i < |a| && j < |b| && a[i] == b[j] && multiset(a) == multiset(b)
    ensures multiset(a[..i] + a[i + 1..]) == multiset(b[..j] + b[j + 1..])
  {
    var x := a[i];
    var a' := a[..i] + a[i + 1..];
    var b' := b[..j] + b[j + 1..];
    assert a == a[..i] + [x] + a[i + 1..];
    assert b == b[..j] + [x] + b[j + 1..];
    assert multiset(a) == multiset(a') + multiset{x};
    assert multiset(b) == multiset(b') + multiset{x};
    forall y ensures multiset(a')[y] == multiset(b')[y] {
      assert multiset(a)[y] == multiset(a')[y] + multiset{x}[y];
      assert multiset(b)[y] == multiset(b')[y] + multiset{x}[y];
    }
  }

  /** The count over a sample is the count without trial i plus trial i's contribution. */
  lemma CountWithout(tail: Tail, b: seq<real>, i: nat, observed: real)
    requires i < |b|
    ensures CountExtreme(tail, b, observed)
            == CountExtreme(tail, b[..i] + b[i + 1..], observed)
               + (if AtLeastAsExtreme(tail, b[i], observed) then 1 else 0)
  {
    var x := b[i];
    assert b == b[..i] + ([x] + b[i + 1..]);
    CountConcat(tail, b[..i], [x] + b[i + 1..], observed);
    CountConcat(tail, [x], b[i + 1..], observed);
    CountConcat(tail, b[..i], b[i + 1..], observed);
    assert [x][..0] == [];
  }
}
