/** The null-distribution generator: the observed somatic bases are flattened
    in context order, each trial's context-matched position draws are
    concatenated in the same order, every trial row is annotated against the
    same base list, and one statistic per row is accumulated in row order.
    The position sampler (`random_pos`) enters as its output, the annotator and
    the statistic calculators as function parameters. */
module Permutation {
  import opened Mutations
  import opened Flatten

  type Context = string

  /** One entry of `context_counts`, in the series' index order: a context and
      the number of observed mutations in it. */
  datatype ContextCount = ContextCount(context: Context, count: nat)

  /** calc_deleterious_info(ref_aa, somatic_aa) as the null loop calls it. */
  type NullDeleteriousCalculator = (seq<AminoAcid>, seq<AminoAcid>) -> int

  /** calc_pos_info(codon_pos, ref_aa, somatic_aa) as the null loop calls it. */
  type NullPositionCalculator = (seq<int>, seq<AminoAcid>, seq<AminoAcid>) -> PositionStats

  function Counts(counts: seq<ContextCount>): (ns: seq<nat>)
    ensures |ns| == |counts|
  {
    seq(|counts|, c requires 0 <= c < |counts| => counts[c].count)
  }

  /** Every context of the count table has an entry in `context_to_mut`. */
  predicate ContextsKnown(counts: seq<ContextCount>, contextToMut: map<Context, seq<Base>>) {
    forall c :: 0 <= c < |counts| ==> counts[c].context in contextToMut
  }

  /** The count table and the base lists describe the same mutations: each
      context's list is as long as its count. */
  predicate GroupingConsistent(counts: seq<ContextCount>, contextToMut: map<Context, seq<Base>>) {
    && ContextsKnown(counts, contextToMut)
    && forall c :: 0 <= c < |counts| ==> |contextToMut[counts[c].context]| == counts[c].count
  }

  /** The observed bases of each context, in context order. */
  function BaseBlocks(counts: seq<ContextCount>, contextToMut: map<Context, seq<Base>>): (blocks: seq<seq<Base>>)
    requires ContextsKnown(counts, contextToMut)
    ensures |blocks| == |counts|
  {
    seq(|counts|, c requires 0 <= c < |counts| => contextToMut[counts[c].context])
  }

  /** `somatic_base`: the base lists of the contexts concatenated in context
      order; where each base lands is stated by RowAlignsWithBases. */
  function SomaticBases(counts: seq<ContextCount>, contextToMut: map<Context, seq<Base>>): (bases: seq<Base>)
    requires ContextsKnown(counts, contextToMut)
    ensures |bases| == Sum(Lengths(BaseBlocks(counts, contextToMut)))
  {
    Concat(BaseBlocks(counts, contextToMut))
  }

  /** When the base lists agree with the counts, there is one base per counted
      mutation and context c's block starts at the sum of the earlier counts. */
  lemma SomaticBasesMatchCounts(counts: seq<ContextCount>, contextToMut: map<Context, seq<Base>>)
    requires GroupingConsistent(counts, contextToMut)
    ensures Lengths(BaseBlocks(counts, contextToMut)) == Counts(counts)
    ensures |SomaticBases(counts, contextToMut)| == Sum(Counts(counts))
  {
    assert Lengths(BaseBlocks(counts, contextToMut)) == Counts(counts);
  }

  /** One (context, position array) pair of the sampler's output: one row of
      positions per trial. */
  datatype ContextDraws = ContextDraws(context: Context, rows: seq<seq<int>>)

  /** The sampler's output has the shape `random_pos` promises: one pair per
      entry of the count table, in the table's order and labelled with that
      entry's context, and for trial t, rows[t] holds as many positions as the
      context's count. `np.hstack` drops the labels, so the pairing with the
      bases rests on this order. */
  predicate WellShapedDraws(counts: seq<ContextCount>, draws: seq<ContextDraws>, numPermutations: nat) {
    && |draws| == |counts|
    && (forall c :: 0 <= c < |draws| ==> draws[c].context == counts[c].context)
    && (forall c :: 0 <= c < |draws| ==> |draws[c].rows| == numPermutations)
    && (forall c, t :: 0 <= c < |draws| && 0 <= t < |draws[c].rows| ==> |draws[c].rows[t]| == counts[c].count)
  }

  /** Trial t's position blocks, one per context, in context order. */
  function TrialBlocks(draws: seq<ContextDraws>, t: nat): (blocks: seq<seq<int>>)
    requires forall c :: 0 <= c < |draws| ==> t < |draws[c].rows|
    ensures |blocks| == |draws|
  {
    seq(|draws|, c requires 0 <= c < |draws| => draws[c].rows[t])
  }

  /** `np.hstack`: trial t's row is its per-context draws concatenated in
      context order, one position per counted mutation; where each draw lands
      is stated by TrialRowAt. */
  function TrialRow(counts: seq<ContextCount>, draws: seq<ContextDraws>, numPermutations: nat, t: nat)
    : (row: seq<int>)
    requires WellShapedDraws(counts, draws, numPermutations) && t < numPermutations
    ensures |row| == Sum(Counts(counts))
  {
    var blocks := TrialBlocks(draws, t);
    assert Lengths(blocks) == Counts(counts);
    Concat(blocks)
  }

  /** Positions and bases line up element for element: in trial t's row the
      flat index of context c's k-th mutation holds that context's k-th draw,
      and the same index of `somatic_base` holds that context's k-th base. */
  lemma RowAlignsWithBases(counts: seq<ContextCount>, contextToMut: map<Context, seq<Base>>,
                           draws: seq<ContextDraws>, numPermutations: nat, t: nat, c: nat, k: nat)
    requires GroupingConsistent(counts, contextToMut)
    requires WellShapedDraws(counts, draws, numPermutations)
    requires t < numPermutations && c < |counts| && k < counts[c].count
    ensures |TrialRow(counts, draws, numPermutations, t)| == |SomaticBases(counts, contextToMut)|
    ensures PrefixSum(Counts(counts), c) + k < |SomaticBases(counts, contextToMut)|
    ensures TrialRow(counts, draws, numPermutations, t)[PrefixSum(Counts(counts), c) + k] == draws[c].rows[t][k]
    ensures SomaticBases(counts, contextToMut)[PrefixSum(Counts(counts), c) + k]
            == contextToMut[counts[c].context][k]
  {
    SomaticBasesMatchCounts(counts, contextToMut);
    var blocks := BaseBlocks(counts, contextToMut);
    assert blocks[c] == contextToMut[counts[c].context];
    ConcatAt(blocks, c, k);
    TrialRowAt(counts, draws, numPermutations, t, c, k);
  }

  /** Context c's k-th draw of trial t sits at offset (earlier counts) + k of
      the trial's row. */
  lemma TrialRowAt(counts: seq<ContextCount>, draws: seq<ContextDraws>, numPermutations: nat,
                   t: nat, c: nat, k: nat)
    requires WellShapedDraws(counts, draws, numPermutations)
    requires t < numPermutations && c < |counts| && k < counts[c].count
    ensures PrefixSum(Counts(counts), c) + k < |TrialRow(counts, draws, numPermutations, t)|
    ensures TrialRow(counts, draws, numPermutations, t)[PrefixSum(Counts(counts), c) + k] == draws[c].rows[t][k]
  {
    var row := TrialBlocks(draws, t);
    assert Lengths(row) == Counts(counts);
    assert row[c] == draws[c].rows[t];
    ConcatAt(row, c, k);
  }

  /** The context of each flat slot: context c repeated count(c) times. */
  function SlotContexts(counts: seq<ContextCount>): (slots: seq<Context>)
    ensures |slots| == Sum(Counts(counts))
  {
    var blocks := seq(|counts|, c requires 0 <= c < |counts| =>
                        seq(counts[c].count, k requires 0 <= k < counts[c].count => counts[c].context));
    assert Lengths(blocks) == Counts(counts);
    Concat(blocks)
  }

  /** If the sampler draws each context's positions from that context's
      coding positions, every slot of every trial row holds a position of the
      slot's context. */
  lemma RowPositionsRespectContext(counts: seq<ContextCount>, draws: seq<ContextDraws>,
                                   numPermutations: nat, positionsOf: Context -> set<int>)
    requires WellShapedDraws(counts, draws, numPermutations)
    requires forall c, t, k :: 0 <= c < |draws| && 0 <= t < |draws[c].rows| && 0 <= k < |draws[c].rows[t]| ==>
               draws[c].rows[t][k] in positionsOf(draws[c].context)
    ensures forall t, j :: 0 <= t < numPermutations && 0 <= j < Sum(Counts(counts)) ==>
              TrialRow(counts, draws, numPermutations, t)[j] in positionsOf(SlotContexts(counts)[j])
  {
    var blocks := seq(|counts|, c requires 0 <= c < |counts| =>
                        seq(counts[c].count, k requires 0 <= k < counts[c].count => counts[c].context));
    assert Lengths(blocks) == Counts(counts);
    assert SlotContexts(counts) == Concat(blocks);
    forall t, j | 0 <= t < numPermutations && 0 <= j < Sum(Counts(counts))
      ensures TrialRow(counts, draws, numPermutations, t)[j] in positionsOf(SlotContexts(counts)[j])
    {
      var c, k := ConcatLocate(blocks, j);
      ConcatAt(blocks, c, k);
      assert SlotContexts(counts)[j] == counts[c].context;
      TrialRowAt(counts, draws, numPermutations, t, c, k);
      assert TrialRow(counts, draws, numPermutations, t)[j] == draws[c].rows[t][k];
      assert draws[c].rows[t][k] in positionsOf(draws[c].context);
    }
  }

  /** `utils.get_aa_mut_info(row, somatic_base, gene_seq)` for trial t. */
  function TrialAnnotation(counts: seq<ContextCount>, contextToMut: map<Context, seq<Base>>,
                           draws: seq<ContextDraws>, numPermutations: nat,
                           annotate: Annotator, t: nat): (info: seq<AaChange>)
    requires GroupingConsistent(counts, contextToMut)
    requires WellShapedDraws(counts, draws, numPermutations) && t < numPermutations
    ensures |info| == |SomaticBases(counts, contextToMut)|
  {
    SomaticBasesMatchCounts(counts, contextToMut);
    AnnotateRow(annotate, TrialRow(counts, draws, numPermutations, t), SomaticBases(counts, contextToMut))
  }

  /** Only positions vary between trials, never the bases: wherever two trials
      drew the same position, they annotate the same mutation; and each slot is
      annotated with the fixed observed base of that slot. */
  lemma TrialsShareBases(counts: seq<ContextCount>, contextToMut: map<Context, seq<Base>>,
                         draws: seq<ContextDraws>, numPermutations: nat, annotate: Annotator,
                         t1: nat, t2: nat)
    requires GroupingConsistent(counts, contextToMut)
    requires WellShapedDraws(counts, draws, numPermutations)
    requires t1 < numPermutations && t2 < numPermutations
    ensures |SomaticBases(counts, contextToMut)| == Sum(Counts(counts))
    ensures forall j :: 0 <= j < Sum(Counts(counts)) ==>
              TrialAnnotation(counts, contextToMut, draws, numPermutations, annotate, t1)[j]
              == annotate(TrialRow(counts, draws, numPermutations, t1)[j], SomaticBases(counts, contextToMut)[j])
    ensures forall j ::
              (0 <= j < Sum(Counts(counts)) &&
               TrialRow(counts, draws, numPermutations, t1)[j] == TrialRow(counts, draws, numPermutations, t2)[j]) ==>
              TrialAnnotation(counts, contextToMut, draws, numPermutations, annotate, t1)[j]
              == TrialAnnotation(counts, contextToMut, draws, numPermutations, annotate, t2)[j]
  {
    SomaticBasesMatchCounts(counts, contextToMut);
  }

  /** deleterious_permutation: one deleterious count per trial row, in row order. */
  method DeleteriousPermutation(counts: seq<ContextCount>, contextToMut: map<Context, seq<Base>>,
                                draws: seq<ContextDraws>, numPermutations: nat,
                                annotate: Annotator, delCalc: NullDeleteriousCalculator)
    returns (delCounts: seq<int>)
    requires |counts| > 0
    requires GroupingConsistent(counts, contextToMut)
    requires WellShapedDraws(counts, draws, numPermutations)
    ensures |delCounts| == numPermutations
    ensures forall t :: 0 <= t < numPermutations ==>
              var info := TrialAnnotation(counts, contextToMut, draws, numPermutations, annotate, t);
              delCounts[t] == delCalc(RefAas(info), SomaticAas(info))
  {
    delCounts := [];
    for t := 0 to numPermutations
      invariant |delCounts| == t
      invariant forall i :: 0 <= i < t ==>
                  var info := TrialAnnotation(counts, contextToMut, draws, numPermutations, annotate, i);
                  delCounts[i] == delCalc(RefAas(info), SomaticAas(info))
    {
      var info := TrialAnnotation(counts, contextToMut, draws, numPermutations, annotate, t);
      delCounts := delCounts + [delCalc(RefAas(info), SomaticAas(info))];
    }
  }

  /** position_permutation: three lists of one entry per trial row; entry t of
      each comes from the single calculator call on row t. */
  method PositionPermutation(counts: seq<ContextCount>, contextToMut: map<Context, seq<Base>>,
                             draws: seq<ContextDraws>, numPermutations: nat,
                             annotate: Annotator, posCalc: NullPositionCalculator)
    returns (recurList: seq<int>, entropyList: seq<real>, deltaEntropyList: seq<real>)
    requires |counts| > 0
    requires GroupingConsistent(counts, contextToMut)
    requires WellShapedDraws(counts, draws, numPermutations)
    ensures |recurList| == |entropyList| == |deltaEntropyList| == numPermutations
    ensures forall t :: 0 <= t < numPermutations ==>
              var info := TrialAnnotation(counts, contextToMut, draws, numPermutations, annotate, t);
              posCalc(CodonPositions(info), RefAas(info), SomaticAas(info))
              == PositionStats(recurList[t], entropyList[t], deltaEntropyList[t])
  {
    recurList, entropyList, deltaEntropyList := [], [], [];
    for t := 0 to numPermutations
      invariant |recurList| == t && |entropyList| == t && |deltaEntropyList| == t
      invariant forall i :: 0 <= i < t ==>
                  var info := TrialAnnotation(counts, contextToMut, draws, numPermutations, annotate, i);
                  posCalc(CodonPositions(info), RefAas(info), SomaticAas(info))
                  == PositionStats(recurList[i], entropyList[i], deltaEntropyList[i])
    {
      var info := TrialAnnotation(counts, contextToMut, draws, numPermutations, annotate, t);
      var stats := posCalc(CodonPositions(info), RefAas(info), SomaticAas(info));
      recurList := recurList + [stats.recurrent];
      entropyList := entropyList + [stats.entropy];
      deltaEntropyList := deltaEntropyList + [stats.deltaEntropy];
    }
  }
}
