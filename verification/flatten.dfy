/** Concatenation of per-context lists in context order, and where each
    context's block lands in the flat result. */
module Flatten {

  /** Sum of a list of counts. */
  function Sum(ns: seq<nat>): nat {
    if |ns| == 0 then 0 else ns[0] + Sum(ns[1..])
  }

  /** Sum of the first c counts: the flat index where block c starts. */
  function PrefixSum(ns: seq<nat>, c: nat): nat
    requires c <= |ns|
  {
    if c == 0 then 0 else ns[0] + PrefixSum(ns[1..], c - 1)
  }

  /** The blocks' lengths, in order. */
  function Lengths<T>(xss: seq<seq<T>>): (ns: seq<nat>)
    ensures |ns| == |xss|
  {
    seq(|xss|, i requires 0 <= i < |xss| => |xss[i]|)
  }

  /** `[x for xs in xss for x in xs]`. */
  function Concat<T>(xss: seq<seq<T>>): (r: seq<T>)
    ensures |r| == Sum(Lengths(xss))
  {
    if |xss| == 0 then []
    else
      assert Lengths(xss[1..]) == Lengths(xss)[1..];
      xss[0] + Concat(xss[1..])
  }

  /** Block c starts no later than where the total ends, less block c's length. */
  lemma {:induction false} PrefixSumBound(ns: seq<nat>, c: nat)
    requires c < |ns|
    ensures PrefixSum(ns, c) + ns[c] <= Sum(ns)
  {
    if c > 0 {
      PrefixSumBound(ns[1..], c - 1);
    }
  }

  /** Element k of block c sits at flat index PrefixSum(lengths, c) + k. */
  lemma {:induction false} ConcatAt<T>(xss: seq<seq<T>>, c: nat, k: nat)
    requires c < |xss| && k < |xss[c]|
    ensures PrefixSum(Lengths(xss), c) + k < |Concat(xss)|
    ensures Concat(xss)[PrefixSum(Lengths(xss), c) + k] == xss[c][k]
  {
    PrefixSumBound(Lengths(xss), c);
    if c > 0 {
      assert Lengths(xss[1..]) == Lengths(xss)[1..];
      ConcatAt(xss[1..], c - 1, k);
    }
  }

  /** Every flat index lies in some block: index j is element k of block c. */
  lemma {:induction false} ConcatLocate<T>(xss: seq<seq<T>>, j: nat) returns (c: nat, k: nat)
    requires j < |Concat(xss)|
    ensures c < |xss| && k < |xss[c]|
    ensures j == PrefixSum(Lengths(xss), c) + k
  {
    assert |xss| > 0;
    if j < |xss[0]| {
      c, k := 0, j;
    } else {
      assert Lengths(xss[1..]) == Lengths(xss)[1..];
      var c', k' := ConcatLocate(xss[1..], j - |xss[0]|);
      c, k := c' + 1, k';
    }
  }
}
