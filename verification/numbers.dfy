/** Numeric conversions shared by the sorting and tallying modules. */
module Numbers {
  /** Integers read as reals: the positions of a permutation, so that they can
      be argsorted, or integer statistics compared against real thresholds. */
  function AsReals(xs: seq<int>): (r: seq<real>)
    ensures |r| == |xs|
  {
    seq(|xs|, i requires 0 <= i < |xs| => xs[i] as real)
  }
}
