/** Index permutations and the argsort that bh_fdr uses to put p-values in
    ascending order and to restore their original order afterwards. */
module Sorting {
  import opened Numbers

  /** Values in non-decreasing order. */
  predicate Sorted(s: seq<real>) {
    forall i, j :: 0 <= i < j < |s| ==> s[i] <= s[j]
  }

  predicate Distinct<T(==)>(s: seq<T>) {
    forall i, j :: 0 <= i < j < |s| ==> s[i] != s[j]
  }

  /** Every entry of xs is a valid index into a sequence of length n. */
  predicate IndicesBelow(xs: seq<nat>, n: nat) {
    forall i :: 0 <= i < |xs| ==> xs[i] < n
  }

  /** o lists each of 0 .. n-1 exactly once. */
  predicate IsPermutation(o: seq<nat>, n: nat) {
    && |o| == n
    && IndicesBelow(o, n)
    && Distinct(o)
    && (forall k: nat :: k < n ==> k in o)
  }

  /** Fancy indexing `p[o]`: the values of p taken in the order o lists them. */
  function Permute(p: seq<real>, o: seq<nat>): (s: seq<real>)
    requires IndicesBelow(o, |p|)
    ensures |s| == |o|
  {
    seq(|o|, i requires 0 <= i < |o| => p[o[i]])
  }

  /** o is a permutation that sorts p ascending; ties may be broken either way. */
  predicate IsArgsort(p: seq<real>, o: seq<nat>) {
    IsPermutation(o, |p|) && Sorted(Permute(p, o))
  }

  predicate SortedIndices(p: seq<real>, xs: seq<nat>)
    requires IndicesBelow(xs, |p|)
  {
    forall i, j :: 0 <= i < j < |xs| ==> p[xs[i]] <= p[xs[j]]
  }

  /** Inserts index k into xs after every index whose value is at most p[k]. */
  function Insert(p: seq<real>, xs: seq<nat>, k: nat): (r: seq<nat>)
    requires k < |p| && IndicesBelow(xs, |p|) && SortedIndices(p, xs)
    ensures |r| == |xs| + 1
    ensures forall v: nat :: v in r <==> v in xs || v == k
    ensures IndicesBelow(r, |p|)
    ensures SortedIndices(p, r)
    ensures Distinct(xs) && k !in xs ==> Distinct(r)
    decreases |xs|
  {
    if |xs| == 0 then [k]
    else if p[k] < p[xs[0]] then
      ConsSorted(p, k, xs);
      [k] + xs
    else
      TailOfSorted(p, xs);
      var rest := Insert(p, xs[1..], k);
      HeadBoundsInsert(p, xs, k, rest);
      ConsSorted(p, xs[0], rest);
      assert Distinct(xs) && k !in xs ==> xs[0] !in rest;
      ConsDistinct(xs[0], rest);
      [xs[0]] + rest
  }

  /** The tail of a sorted index list is a sorted index list; when the list is
      distinct, so is its tail, and the head does not occur in it. */
  lemma TailOfSorted(p: seq<real>, xs: seq<nat>)
    requires |xs| > 0 && IndicesBelow(xs, |p|) && SortedIndices(p, xs)
    ensures IndicesBelow(xs[1..], |p|) && SortedIndices(p, xs[1..])
    ensures Distinct(xs) ==> Distinct(xs[1..]) && xs[0] !in xs[1..]
    ensures forall v: nat :: v in xs <==> v == xs[0] || v in xs[1..]
  {
    assert xs == [xs[0]] + xs[1..];
  }

  lemma ConsDistinct(x: nat, rest: seq<nat>)
    ensures Distinct(rest) && x !in rest ==> Distinct([x] + rest)
  {
    if Distinct(rest) && x !in rest {
      var r := [x] + rest;
      forall i, j | 0 <= i < j < |r| ensures r[i] != r[j] {
        assert r[j] == rest[j - 1];
        if i > 0 {
          assert r[i] == rest[i - 1];
        }
      }
    }
  }

  /** Putting an index whose value bounds the rest from below in front keeps
      the indices sorted. */
  lemma ConsSorted(p: seq<real>, x: nat, rest: seq<nat>)
    requires x < |p| && IndicesBelow(rest, |p|) && SortedIndices(p, rest)
    requires |rest| > 0 ==> p[x] <= p[rest[0]]
    ensures IndicesBelow([x] + rest, |p|)
    ensures SortedIndices(p, [x] + rest)
  {
    var r := [x] + rest;
    forall i, j | 0 <= i < j < |r| ensures p[r[i]] <= p[r[j]] {
      if i == 0 {
        assert p[rest[0]] <= p[rest[j - 1]];
      } else {
        assert r[i] == rest[i - 1] && r[j] == rest[j - 1];
      }
    }
  }

  /** The head of a sorted index list bounds from below every value of the
      insertion into its tail, when the inserted value is not smaller. */
  lemma HeadBoundsInsert(p: seq<real>, xs: seq<nat>, k: nat, rest: seq<nat>)
    requires k < |p| && |xs| > 0 && IndicesBelow(xs, |p|) && SortedIndices(p, xs)
    requires p[xs[0]] <= p[k]
    requires |rest| > 0 && IndicesBelow(rest, |p|)
    requires forall v: nat :: v in rest <==> v in xs[1..] || v == k
    ensures p[xs[0]] <= p[rest[0]]
  {
    var v := rest[0];
    assert v in rest;
    if v != k {
      var j :| 0 <= j < |xs[1..]| && xs[1..][j] == v;
      assert xs[j + 1] == v;
    }
  }

  /** Argsort of the first m values of p. */
  function ArgsortPrefix(p: seq<real>, m: nat): (r: seq<nat>)
    requires m <= |p|
    ensures |r| == m
    ensures forall v: nat :: v in r <==> v < m
    ensures IndicesBelow(r, |p|)
    ensures SortedIndices(p, r)
    ensures Distinct(r)
  {
    if m == 0 then []
    else Insert(p, ArgsortPrefix(p, m - 1), m - 1)
  }

  /** np.argsort: the indices of p in ascending order of their values. */
  function Argsort(p: seq<real>): (o: seq<nat>)
    ensures IsArgsort(p, o)
  {
    ArgsortPrefix(p, |p|)
  }

  /** A strictly increasing run of n integers drawn from 0 .. n-1 is 0, 1, ..., n-1. */
  lemma {:induction false} StrictRunIsIdentity(t: seq<int>)
    requires forall i :: 0 <= i < |t| ==> 0 <= t[i] < |t|
    requires forall i, j :: 0 <= i < j < |t| ==> t[i] < t[j]
    ensures forall i :: 0 <= i < |t| ==> t[i] == i
  {
    forall i | 0 <= i < |t| ensures t[i] == i {
      RunLowerBound(t, i);
      RunUpperBound(t, i);
    }
  }

  lemma {:induction false} RunLowerBound(t: seq<int>, i: nat)
    requires i < |t|
    requires forall k :: 0 <= k < |t| ==> 0 <= t[k]
    requires forall k, j :: 0 <= k < j < |t| ==> t[k] < t[j]
    ensures t[i] >= i
  {
    if i > 0 {
      RunLowerBound(t, i - 1);
    }
  }

  lemma {:induction false} RunUpperBound(t: seq<int>, i: nat)
    requires i < |t|
    requires forall k :: 0 <= k < |t| ==> t[k] < |t|
    requires forall k, j :: 0 <= k < j < |t| ==> t[k] < t[j]
    ensures t[i] <= i
    decreases |t| - i
  {
    if i < |t| - 1 {
      RunUpperBound(t, i + 1);
    }
  }

  /** Argsorting a permutation yields its inverse (lines 47-48 of bh_fdr). */
  lemma ArgsortInvertsPermutation(o: seq<nat>)
    requires IsPermutation(o, |o|)
    ensures IsPermutation(Argsort(AsReals(o)), |o|)
    ensures forall k :: 0 <= k < |o| ==> o[Argsort(AsReals(o))[k]] == k
    ensures forall i :: 0 <= i < |o| ==> Argsort(AsReals(o))[o[i]] == i
  {
    var x := AsReals(o);
    var inv := Argsort(x);
    var t := seq(|o|, k requires 0 <= k < |o| => o[inv[k]] as int);
    assert Sorted(Permute(x, inv));
    forall k, j | 0 <= k < j < |t| ensures t[k] < t[j] {
      assert Permute(x, inv)[k] <= Permute(x, inv)[j];
      assert inv[k] != inv[j];
    }
    StrictRunIsIdentity(t);
    forall i | 0 <= i < |o| ensures inv[o[i]] == i {
      assert o[inv[o[i]]] == o[i] by { assert t[o[i]] == o[i]; }
    }
  }

  /** Fancy indexing by the argsort of o, `a[np.argsort(o)]`: the value at
      position j of a goes back to position o[j]. */
  function Unpermute(a: seq<real>, o: seq<nat>): (r: seq<real>)
    requires IsPermutation(o, |a|)
    ensures |r| == |a|
    ensures forall j :: 0 <= j < |a| ==> r[o[j]] == a[j]
  {
    var inv := Argsort(AsReals(o));
    ArgsortInvertsPermutation(o);
    seq(|a|, k requires 0 <= k < |a| => a[inv[k]])
  }

  /** Restoring the order undoes the reordering: `p[o][np.argsort(o)] == p`. */
  lemma UnpermutePermute(p: seq<real>, o: seq<nat>)
    requires IsPermutation(o, |p|)
    ensures Unpermute(Permute(p, o), o) == p
  {
    var r := Unpermute(Permute(p, o), o);
    forall k | 0 <= k < |p| ensures r[k] == p[k] {
      assert k in o;
      var j :| 0 <= j < |o| && o[j] == k;
      assert r[o[j]] == Permute(p, o)[j];
    }
  }

  /** Dropping the entry that holds n-1 from a permutation of 0 .. n-1 leaves a
      permutation of 0 .. n-2. */
  lemma DropLargest(o: seq<nat>, j0: nat)
    requires |o| > 0 && IsPermutation(o, |o|)
    requires j0 < |o| && o[j0] == |o| - 1
    ensures IsPermutation(o[..j0] + o[j0 + 1..], |o| - 1)
  {
    var n := |o|;
    var o' := o[..j0] + o[j0 + 1..];
    assert forall i :: 0 <= i < |o'| ==> o'[i] == (if i < j0 then o[i] else o[i + 1]);
    forall i | 0 <= i < |o'| ensures o'[i] < n - 1 {
      var src := if i < j0 then i else i + 1;
      assert o'[i] == o[src] && src != j0;
    }
    forall i, j | 0 <= i < j < |o'| ensures o'[i] != o'[j] {
      var si := if i < j0 then i else i + 1;
      var sj := if j < j0 then j else j + 1;
      assert o'[i] == o[si] && o'[j] == o[sj] && si < sj;
    }
    forall k: nat | k < n - 1 ensures k in o' {
      assert k in o;
      var j :| 0 <= j < |o| && o[j] == k;
      assert j != j0;
      if j < j0 { assert o'[j] == k; } else { assert o'[j - 1] == k; }
    }
  }

  /** Reordering by a permutation keeps the multiset of values. */
  lemma {:induction false} PermuteMultiset(p: seq<real>, o: seq<nat>)
    requires IsPermutation(o, |p|)
    ensures multiset(Permute(p, o)) == multiset(p)
    decreases |p|
  {
    var n := |p|;
    if n > 0 {
      var last: nat := n - 1;
      assert last in o;
      var j0 :| 0 <= j0 < |o| && o[j0] == last;
      var o' := o[..j0] + o[j0 + 1..];
      var p' := p[..n - 1];
      DropLargest(o, j0);
      PermuteMultiset(p', o');
      var s := Permute(p, o);
      PermuteWithoutLargest(p, o, j0);
      MultisetRemoveAt(s, j0);
      assert p == p' + [p[last]];
      assert multiset(p) == multiset(p') + multiset{p[last]};
    }
  }

  /** Removing the largest index from the permutation removes the last value
      of p from the permuted sequence, at the same place. */
  lemma PermuteWithoutLargest(p: seq<real>, o: seq<nat>, j0: nat)
    requires |p| > 0 && IsPermutation(o, |p|)
    requires j0 < |o| && o[j0] == |p| - 1
    requires IsPermutation(o[..j0] + o[j0 + 1..], |p| - 1)
    ensures Permute(p[..|p| - 1], o[..j0] + o[j0 + 1..]) == Permute(p, o)[..j0] + Permute(p, o)[j0 + 1..]
    ensures Permute(p, o)[j0] == p[|p| - 1]
  {
    var s := Permute(p, o);
    var o' := o[..j0] + o[j0 + 1..];
    var s' := Permute(p[..|p| - 1], o');
    forall i | 0 <= i < |s'| ensures s'[i] == (s[..j0] + s[j0 + 1..])[i] {
      if i < j0 { assert o'[i] == o[i]; } else { assert o'[i] == o[i + 1]; }
    }
  }

  lemma MultisetRemoveAt(s: seq<real>, j: nat)
    requires j < |s|
    ensures multiset(s) == multiset(s[..j] + s[j + 1..]) + multiset{s[j]}
  {
    assert s == s[..j] + [s[j]] + s[j + 1..];
  }

  /** Two sorted sequences holding the same values are the same sequence. */
  lemma {:induction false} SortedUnique(a: seq<real>, b: seq<real>)
    requires Sorted(a) && Sorted(b) && multiset(a) == multiset(b)
    ensures a == b
    decreases |a|
  {
    if |a| == 0 {
      assert |b| == |multiset(b)| == 0;
    } else {
      assert |b| == |multiset(b)| == |multiset(a)| == |a|;
      assert a[0] in multiset(b);
      assert b[0] in multiset(a);
      assert a[0] == b[0] by {
        var i :| 0 <= i < |b| && b[i] == a[0];
        var j :| 0 <= j < |a| && a[j] == b[0];
        assert b[0] <= b[i] && a[0] <= a[j];
      }
      assert a == [a[0]] + a[1..];
      assert b == [b[0]] + b[1..];
      assert multiset(a[1..]) == multiset(a) - multiset{a[0]};
      assert multiset(b[1..]) == multiset(b) - multiset{b[0]};
      SortedUnique(a[1..], b[1..]);
    }
  }

  /** Whatever tie-break an argsort uses, the sorted values are the same. */
  lemma ArgsortsAgree(p: seq<real>, o1: seq<nat>, o2: seq<nat>)
    requires IsArgsort(p, o1) && IsArgsort(p, o2)
    ensures Permute(p, o1) == Permute(p, o2)
  {
    PermuteMultiset(p, o1);
    PermuteMultiset(p, o2);
    SortedUnique(Permute(p, o1), Permute(p, o2));
  }
}
