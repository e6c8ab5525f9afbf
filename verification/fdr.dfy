/** Multiple-testing correction: the running minimum `cummin` and the
    Benjamini-Hochberg step-up adjustment `bh_fdr`. Floating point is modelled
    by exact reals. */
module Fdr {
  import opened Sorting

  function Min(a: real, b: real): (m: real)
    ensures m <= a && m <= b && (m == a || m == b)
  {
    if a <= b then a else b
  }

  /** v is the minimum of x[0..i]. */
  predicate IsPrefixMin(x: seq<real>, i: nat, v: real)
    requires i < |x|
  {
    (forall j :: 0 <= j <= i ==> v <= x[j]) && (exists j :: 0 <= j <= i && v == x[j])
  }

  /** cummin: left to right, each element is lowered to its (already lowered)
      predecessor when the predecessor is smaller. */
  function CumMin(x: seq<real>): (r: seq<real>)
    ensures |r| == |x|
    ensures forall i :: 0 <= i < |r| ==> IsPrefixMin(x, i, r[i])
  {
    if |x| <= 1 then
      assert forall i :: 0 <= i < |x| ==> x[i] == x[0];
      x
    else
      var init := x[..|x| - 1];
      var prev := CumMin(init);
      var last := prev[|prev| - 1];
      var v := if last < x[|x| - 1] then last else x[|x| - 1];
      CumMinStep(x, prev, v);
      prev + [v]
  }

  /** Appending the minimum of the last prefix-minimum and the next element
      extends a prefix-minimum run by one. */
  lemma CumMinStep(x: seq<real>, prev: seq<real>, v: real)
    requires |x| >= 2 && |prev| == |x| - 1
    requires forall i :: 0 <= i < |prev| ==> IsPrefixMin(x[..|x| - 1], i, prev[i])
    requires v == (if prev[|prev| - 1] < x[|x| - 1] then prev[|prev| - 1] else x[|x| - 1])
    ensures forall i :: 0 <= i < |x| ==> IsPrefixMin(x, i, (prev + [v])[i])
  {
    var init := x[..|x| - 1];
    var r := prev + [v];
    forall i | 0 <= i < |x| ensures IsPrefixMin(x, i, r[i]) {
      if i < |prev| {
        assert IsPrefixMin(init, i, prev[i]);
        var j :| 0 <= j <= i && prev[i] == init[j];
        assert r[i] == x[j];
        assert forall j' :: 0 <= j' <= i ==> init[j'] == x[j'];
      } else {
        var last := prev[|prev| - 1];
        assert IsPrefixMin(init, |prev| - 1, last);
        var j :| 0 <= j <= |prev| - 1 && last == init[j];
        assert forall j' :: 0 <= j' < |init| ==> init[j'] == x[j'] && last <= init[j'];
        if last < x[|x| - 1] {
          assert r[i] == x[j];
        } else {
          assert r[i] == x[|x| - 1];
        }
      }
    }
  }

  /** cummin keeps the first element and never increases. */
  lemma CumMinShape(x: seq<real>)
    ensures |x| > 0 ==> CumMin(x)[0] == x[0]
    ensures forall i :: 0 < i < |x| ==> CumMin(x)[i] <= CumMin(x)[i - 1]
    ensures forall i, j :: 0 <= j <= i < |x| ==> CumMin(x)[i] <= x[j]
  {
    var r := CumMin(x);
    forall i | 0 < i < |x| ensures r[i] <= r[i - 1] {
      assert IsPrefixMin(x, i - 1, r[i - 1]);
      var j :| 0 <= j <= i - 1 && r[i - 1] == x[j];
      assert IsPrefixMin(x, i, r[i]);
    }
    if |x| > 0 {
      assert IsPrefixMin(x, 0, r[0]);
    }
    forall i, j | 0 <= j <= i < |x| ensures r[i] <= x[j] {
      assert IsPrefixMin(x, i, r[i]);
    }
  }

  /** cummin([3, 1, 4, 1, 5]) is [3, 1, 1, 1, 1]. */
  lemma CumMinExample()
    ensures CumMin([3.0, 1.0, 4.0, 1.0, 5.0]) == [3.0, 1.0, 1.0, 1.0, 1.0]
  {
    var x := [3.0, 1.0, 4.0, 1.0, 5.0];
    var r := CumMin(x);
    CumMinShape(x);
    assert r[0] == 3.0;
    assert r[1] <= x[1] && r[2] <= x[1] && r[3] <= x[1] && r[4] <= x[1];
    assert IsPrefixMin(x, 1, r[1]) && IsPrefixMin(x, 2, r[2]);
    assert IsPrefixMin(x, 3, r[3]) && IsPrefixMin(x, 4, r[4]);
  }

  /** The Benjamini-Hochberg term of rank r (0-based) in the sorted vector s:
      n / (r + 1) * s[r]. */
  function BhTerm(s: seq<real>, r: nat): real
    requires r < |s|
  {
    (|s| as real / (r + 1) as real) * s[r]
  }

  /** Reference definition of the step-up minimum: min over ranks j..n-1 of
      the Benjamini-Hochberg terms, taken from the largest rank down. */
  function StepUpMin(s: seq<real>, j: nat): real
    requires j < |s|
    decreases |s| - j
  {
    if j == |s| - 1 then BhTerm(s, j)
    else Min(BhTerm(s, j), StepUpMin(s, j + 1))
  }

  /** The canonical adjusted p-value of rank j: min(1, min_{r >= j} n/(r+1) * s[r]),
      the formula R's p.adjust(method = "BH") evaluates. */
  function BhReference(s: seq<real>, j: nat): real
    requires j < |s|
  {
    Min(1.0, StepUpMin(s, j))
  }

  /** `n/i * pval_array[::-1]` with i running from n down to 1. */
  function StepUpTerms(s: seq<real>): (t: seq<real>)
    ensures |t| == |s|
  {
    seq(|s|, i requires 0 <= i < |s| => (|s| as real / (|s| - i) as real) * s[|s| - 1 - i])
  }

  function Reverse(x: seq<real>): (r: seq<real>)
    ensures |r| == |x|
  {
    seq(|x|, i requires 0 <= i < |x| => x[|x| - 1 - i])
  }

  /** `np.minimum(1, cummin(...))[::-1]`: the adjusted values of the sorted vector,
      rank order. */
  function AdjustSorted(s: seq<real>): (a: seq<real>)
    ensures |a| == |s|
  {
    var c := CumMin(StepUpTerms(s));
    Reverse(seq(|c|, i requires 0 <= i < |c| => Min(1.0, c[i])))
  }

  /** StepUpMin is the least of the terms of rank j and above. */
  lemma {:induction false} StepUpMinIsLeast(s: seq<real>, j: nat)
    requires j < |s|
    ensures forall r :: j <= r < |s| ==> StepUpMin(s, j) <= BhTerm(s, r)
    ensures exists r :: j <= r < |s| && StepUpMin(s, j) == BhTerm(s, r)
    decreases |s| - j
  {
    if j == |s| - 1 {
      assert StepUpMin(s, j) == BhTerm(s, j);
    } else {
      StepUpMinIsLeast(s, j + 1);
      if BhTerm(s, j) <= StepUpMin(s, j + 1) {
        assert StepUpMin(s, j) == BhTerm(s, j);
      } else {
        var r :| j + 1 <= r < |s| && StepUpMin(s, j + 1) == BhTerm(s, r);
        assert StepUpMin(s, j) == BhTerm(s, r);
      }
    }
  }

  /** The cumulative minimum of the reversed terms, read at the slot of rank j,
      is the step-up minimum of rank j. */
  lemma CumMinAtRank(s: seq<real>, j: nat)
    requires j < |s|
    ensures CumMin(StepUpTerms(s))[|s| - 1 - j] == StepUpMin(s, j)
  {
    var n := |s|;
    var t := StepUpTerms(s);
    var m := n - 1 - j;
    StepUpTermsReversed(s);
    StepUpMinIsLeast(s, j);
    var r :| j <= r < n && StepUpMin(s, j) == BhTerm(s, r);
    assert t[n - 1 - r] == StepUpMin(s, j);
    forall i | 0 <= i <= m ensures StepUpMin(s, j) <= t[i] {
      assert t[i] == BhTerm(s, n - 1 - i);
    }
    PrefixMinUnique(t, m, CumMin(t)[m], StepUpMin(s, j), n - 1 - r);
  }

  /** A value below x[0..i] and attained at some slot k <= i is the prefix minimum. */
  lemma PrefixMinUnique(x: seq<real>, i: nat, v: real, w: real, k: nat)
    requires i < |x| && IsPrefixMin(x, i, v)
    requires forall j :: 0 <= j <= i ==> w <= x[j]
    requires k <= i && w == x[k]
    ensures v == w
  {
    var j :| 0 <= j <= i && v == x[j];
  }

  /** Slot i of the scaled reversed vector holds the term of rank n-1-i. */
  lemma StepUpTermsReversed(s: seq<real>)
    ensures forall i :: 0 <= i < |s| ==> StepUpTerms(s)[i] == BhTerm(s, |s| - 1 - i)
  {
    var n := |s|;
    forall i | 0 <= i < n ensures StepUpTerms(s)[i] == BhTerm(s, n - 1 - i) {
      assert (n - 1 - i) + 1 == n - i;
    }
  }

  /** The reverse-cummin-reverse computation of bh_fdr equals the canonical
      step-up formula at every rank. */
  lemma AdjustSortedIsReference(s: seq<real>)
    ensures forall j :: 0 <= j < |s| ==> AdjustSorted(s)[j] == BhReference(s, j)
  {
    forall j | 0 <= j < |s| ensures AdjustSorted(s)[j] == BhReference(s, j) {
      CumMinAtRank(s, j);
    }
  }

  lemma FactorAtLeastOne(n: nat, d: nat)
    requires 0 < d <= n
    ensures (n as real) / (d as real) >= 1.0
  {
  }

  lemma FactorAntitone(n: nat, d1: nat, d2: nat)
    requires 0 < d1 <= d2
    ensures (n as real) / (d1 as real) >= (n as real) / (d2 as real)
  {
    assert (n as real) / (d1 as real) * (d1 as real) == n as real;
    assert (n as real) / (d2 as real) * (d2 as real) == n as real;
  }

  lemma ScaleMonotone(a: real, b: real, x: real)
    requires a >= b && x >= 0.0
    ensures a * x >= b * x
  {
  }

  predicate NonNegative(s: seq<real>) {
    forall i :: 0 <= i < |s| ==> 0.0 <= s[i]
  }

  /** In a sorted non-negative vector every term of rank r is at least s[r]. */
  lemma TermAtLeastValue(s: seq<real>, r: nat)
    requires r < |s| && NonNegative(s)
    ensures BhTerm(s, r) >= s[r]
  {
    FactorAtLeastOne(|s|, r + 1);
    ScaleMonotone(|s| as real / (r + 1) as real, 1.0, s[r]);
  }

  /** Lower ranks never get a larger step-up minimum. */
  lemma StepUpMinMonotone(s: seq<real>, i: nat, j: nat)
    requires i <= j < |s|
    ensures StepUpMin(s, i) <= StepUpMin(s, j)
  {
    StepUpMinIsLeast(s, i);
    StepUpMinIsLeast(s, j);
  }

  /** For sorted non-negative s, the adjusted value of rank j is at least s[j]. */
  lemma StepUpMinAtLeastRaw(s: seq<real>, j: nat)
    requires j < |s| && Sorted(s) && NonNegative(s)
    ensures StepUpMin(s, j) >= s[j]
  {
    StepUpMinIsLeast(s, j);
    var r :| j <= r < |s| && StepUpMin(s, j) == BhTerm(s, r);
    TermAtLeastValue(s, r);
  }

  /** Tied values in a sorted non-negative vector get the same step-up minimum. */
  lemma StepUpMinTie(s: seq<real>, i: nat, j: nat)
    requires i <= j < |s| && Sorted(s) && NonNegative(s) && s[i] == s[j]
    ensures StepUpMin(s, i) == StepUpMin(s, j)
  {
    StepUpMinMonotone(s, i, j);
    StepUpMinIsLeast(s, i);
    StepUpMinIsLeast(s, j);
    var r :| i <= r < |s| && StepUpMin(s, i) == BhTerm(s, r);
    if r < j {
      assert s[i] <= s[r] <= s[j];
      TermAntitoneOnTie(s, r, j);
    }
  }

  /** Of two equal non-negative values, the one of lower rank has the larger term. */
  lemma TermAntitoneOnTie(s: seq<real>, r: nat, j: nat)
    requires r <= j < |s| && s[r] == s[j] && 0.0 <= s[j]
    ensures BhTerm(s, r) >= BhTerm(s, j)
  {
    var a := |s| as real / (r + 1) as real;
    var b := |s| as real / (j + 1) as real;
    FactorAntitone(|s|, r + 1, j + 1);
    ScaleMonotone(a, b, s[j]);
  }

  /** bh_fdr with the sorting permutation `order` supplied: sort, adjust, and put
      the adjusted values back in input order with the argsort of `order`. */
  function BhFdrWith(p: seq<real>, order: seq<nat>): (q: seq<real>)
    requires IsArgsort(p, order)
    ensures |q| == |p|
    ensures forall j :: 0 <= j < |p| ==> q[order[j]] == BhReference(Permute(p, order), j)
    ensures forall k :: 0 <= k < |q| ==> q[k] <= 1.0
  {
    var sorted := Permute(p, order);
    AdjustSortedIsReference(sorted);
    Unpermute(AdjustSorted(sorted), order)
  }

  /** bh_fdr: Benjamini-Hochberg adjusted p-values, in the input's order. */
  function BhFdr(p: seq<real>): (q: seq<real>)
    ensures |q| == |p|
    ensures forall k :: 0 <= k < |q| ==> q[k] <= 1.0
    ensures forall j :: 0 <= j < |p| ==>
              q[Argsort(p)[j]] == BhReference(Permute(p, Argsort(p)), j)
  {
    BhFdrWith(p, Argsort(p))
  }

  /** The adjusted value of input k is the reference value at k's rank. */
  lemma RankOf(p: seq<real>, order: seq<nat>, k: nat) returns (j: nat)
    requires IsArgsort(p, order) && k < |p|
    ensures j < |p| && order[j] == k
    ensures Permute(p, order)[j] == p[k]
    ensures BhFdrWith(p, order)[k] == BhReference(Permute(p, order), j)
  {
    assert k in order;
    j :| 0 <= j < |order| && order[j] == k;
  }

  /** For p-values in [0, 1], each adjusted value lies between its raw p-value and 1. */
  lemma BhFdrBounds(p: seq<real>, order: seq<nat>)
    requires IsArgsort(p, order)
    requires forall k :: 0 <= k < |p| ==> 0.0 <= p[k] <= 1.0
    ensures forall k :: 0 <= k < |p| ==> p[k] <= BhFdrWith(p, order)[k] <= 1.0
  {
    var s := Permute(p, order);
    var q := BhFdrWith(p, order);
    assert NonNegative(s);
    forall k | 0 <= k < |p| ensures p[k] <= q[k] {
      var j := RankOf(p, order, k);
      StepUpMinAtLeastRaw(s, j);
      assert s[j] == p[k] <= 1.0;
    }
  }

  /** Read in ascending-p order the adjusted values never decrease; in
      particular tied p-values get equal adjusted values. */
  lemma BhFdrMonotone(p: seq<real>, order: seq<nat>)
    requires IsArgsort(p, order) && NonNegative(p)
    ensures forall k1, k2 :: 0 <= k1 < |p| && 0 <= k2 < |p| && p[k1] <= p[k2] ==>
              BhFdrWith(p, order)[k1] <= BhFdrWith(p, order)[k2]
  {
    var s := Permute(p, order);
    var q := BhFdrWith(p, order);
    assert NonNegative(s);
    forall k1, k2 | 0 <= k1 < |p| && 0 <= k2 < |p| && p[k1] <= p[k2] ensures q[k1] <= q[k2] {
      var j1 := RankOf(p, order, k1);
      var j2 := RankOf(p, order, k2);
      if j1 <= j2 {
        StepUpMinMonotone(s, j1, j2);
      } else {
        StepUpMinTie(s, j2, j1);
      }
    }
  }

  /** numpy's argsort may break ties in any order: the result does not depend on it. */
  lemma BhFdrTieBreakFree(p: seq<real>, o1: seq<nat>, o2: seq<nat>)
    requires IsArgsort(p, o1) && IsArgsort(p, o2) && NonNegative(p)
    ensures BhFdrWith(p, o1) == BhFdrWith(p, o2)
  {
    ArgsortsAgree(p, o1, o2);
    var s := Permute(p, o1);
    assert NonNegative(s);
    forall k | 0 <= k < |p| ensures BhFdrWith(p, o1)[k] == BhFdrWith(p, o2)[k] {
      var j1 := RankOf(p, o1, k);
      var j2 := RankOf(p, o2, k);
      if j1 <= j2 {
        StepUpMinTie(s, j1, j2);
      } else {
        StepUpMinTie(s, j2, j1);
      }
    }
  }

  /** In a vector of equal non-negative values every step-up minimum is that value. */
  lemma ConstantStepUp(s: seq<real>, c: real, j: nat)
    requires j < |s| && 0.0 <= c
    requires forall i :: 0 <= i < |s| ==> s[i] == c
    ensures StepUpMin(s, j) == c
  {
    assert Sorted(s) && NonNegative(s);
    StepUpMinAtLeastRaw(s, j);
    StepUpMinIsLeast(s, j);
    LastTermIsValue(s);
    assert StepUpMin(s, j) <= BhTerm(s, |s| - 1);
  }

  /** The term of the largest rank is the value itself (n / n = 1). */
  lemma LastTermIsValue(s: seq<real>)
    requires |s| > 0
    ensures BhTerm(s, |s| - 1) == s[|s| - 1]
  {
    var n := |s| as real;
    assert n / n == 1.0;
  }

  /** A vector of equal p-values in [0, 1] comes back unchanged. */
  lemma BhFdrAllEqual(p: seq<real>, c: real)
    requires 0.0 <= c <= 1.0
    requires forall k :: 0 <= k < |p| ==> p[k] == c
    ensures BhFdr(p) == p
  {
    var order := Argsort(p);
    var s := Permute(p, order);
    var q := BhFdrWith(p, order);
    assert forall i :: 0 <= i < |s| ==> s[i] == c;
    forall k | 0 <= k < |p| ensures q[k] == p[k] {
      var j := RankOf(p, order, k);
      ConstantStepUp(s, c, j);
    }
    assert q == p;
  }
}
