/** The per-gene significance tests: the deleterious-mutation test with the
    frameshift fold-in, the position test (recurrence, entropy, delta entropy)
    and the effect test (effect entropy). The null samples and the binomial
    frameshift draws are inputs; observed statistics come from the external
    calculators, passed as functions. */
module Significance {
  import opened Mutations
  import opened NullTally
  import opened Numbers

  datatype Option<T> = None | Some(value: T)

  /** [gene, num_del, del_p_value]; None is the "not tested" sentinel. */
  datatype DeleteriousRecord = DeleteriousRecord(gene: string, numDeleterious: int, pValue: Option<real>)

  /** [gene, num_recurrent, pos_ent, delta_pos_ent, recur_p, ent_p, delta_ent_p]. */
  datatype PositionRecord = PositionRecord(
    gene: string, numRecurrent: int, entropy: real, deltaEntropy: real,
    recurrentP: real, entropyP: real, deltaEntropyP: real)

  /** [gene, num_recur, num_inactivating, effect_ent, ent_p]. */
  datatype EffectRecord = EffectRecord(
    gene: string, numRecurrent: int, numInactivating: int, effectEntropy: real, entropyP: real)

  /** calc_deleterious_info(ref_aa, somatic_aa, codon_pos). */
  type DeleteriousCalculator = (seq<AminoAcid>, seq<AminoAcid>, seq<int>) -> int

  /** calc_pos_info(codon_pos, ref_aa, somatic_aa, min_frac, min_recur). */
  type PositionCalculator = (seq<int>, seq<AminoAcid>, seq<AminoAcid>, real, int) -> PositionStats

  /** calc_effect_info(codon_pos, ref_aa, somatic_aa, min_frac, min_recur). */
  type EffectCalculator = (seq<int>, seq<AminoAcid>, seq<AminoAcid>, real, int) -> EffectStats

  // ---------------------------------------------------------------------------
  // Deleterious-mutation test

  /** Deleterious SNV count of the observed mutations: the calculator applied
      to the columns of the mapped mutations' annotations followed by the
      unmapped ones. */
  function SnvDeleterious(mapped: seq<MappedMutation>, unmapped: seq<AaChange>,
                          annotate: Annotator, delCalc: DeleteriousCalculator): (d: int)
    ensures forall info :: InObservedOrder(mapped, unmapped, annotate, info) ==>
              d == delCalc(RefAas(info), SomaticAas(info), CodonPositions(info))
  {
    ObservedChangesUnique(mapped, unmapped, annotate);
    var info := ObservedChanges(mapped, unmapped, annotate);
    delCalc(RefAas(info), SomaticAas(info), CodonPositions(info))
  }

  /** The permutation branch is taken: there are mapped mutations and the
      deleterious total (frameshifts included) reaches the threshold. */
  predicate RunsDeleteriousPermutations(mapped: seq<MappedMutation>, unmapped: seq<AaChange>,
                                        fsCt: nat, annotate: Annotator,
                                        delCalc: DeleteriousCalculator, delThreshold: int)
  {
    |mapped| > 0 && fsCt + SnvDeleterious(mapped, unmapped, annotate, delCalc) >= delThreshold
  }

  /** Each null trial's deleterious count, with that trial's binomial
      frameshift draw added when the gene has frameshifts. */
  function NullDeleterious(nullDel: seq<int>, fsNull: seq<nat>, fsCt: nat): (nulls: seq<int>)
    requires fsCt > 0 ==> |fsNull| == |nullDel|
    ensures |nulls| == |nullDel|
  {
    if fsCt == 0 then nullDel
    else seq(|nullDel|, i requires 0 <= i < |nullDel| => nullDel[i] + fsNull[i])
  }

  /** Null trials whose (frameshift-adjusted) deleterious count reaches the
      observed total, compared exactly. */
  function DeleteriousHits(nullDel: seq<int>, fsNull: seq<nat>, fsCt: nat, numDel: int): set<nat>
    requires fsCt > 0 ==> |fsNull| == |nullDel|
  {
    set i: nat | i < |nullDel| && nullDel[i] + (if fsCt == 0 then 0 else fsNull[i]) >= numDel
  }

  /** The tolerant comparison on integer counts selects exactly the trials
      whose count reaches the observed total. */
  lemma DeleteriousHitsExact(nullDel: seq<int>, fsNull: seq<nat>, fsCt: nat, numDel: int)
    requires fsCt > 0 ==> |fsNull| == |nullDel|
    ensures ExtremeTrials(Upper, AsReals(NullDeleterious(nullDel, fsNull, fsCt)), numDel as real)
            == DeleteriousHits(nullDel, fsNull, fsCt, numDel)
  {
    var nulls := NullDeleterious(nullDel, fsNull, fsCt);
    forall i | 0 <= i < |nulls| ensures nulls[i] == nullDel[i] + (if fsCt == 0 then 0 else fsNull[i]) {
    }
    forall i | 0 <= i < |nulls| {
      IntegerUpperIsExact(nulls[i], numDel);
    }
  }

  /** calc_deleterious_p_value. */
  function DeleteriousTest(gene: string, mapped: seq<MappedMutation>, unmapped: seq<AaChange>,
                           fsCt: nat, annotate: Annotator, delCalc: DeleteriousCalculator,
                           numPermutations: nat, delThreshold: int,
                           nullDel: seq<int>, fsNull: seq<nat>): (r: DeleteriousRecord)
    requires RunsDeleteriousPermutations(mapped, unmapped, fsCt, annotate, delCalc, delThreshold) ==>
               && numPermutations >= 1
               && |nullDel| == numPermutations
               && (fsCt > 0 ==> |fsNull| == numPermutations)
    ensures r.gene == gene
    ensures |mapped| == 0 ==> r.numDeleterious == 0 && r.pValue == None
    ensures |mapped| > 0 ==>
              r.numDeleterious == fsCt + SnvDeleterious(mapped, unmapped, annotate, delCalc)
    ensures r.pValue.Some? <==> |mapped| > 0 && r.numDeleterious >= delThreshold
    ensures r.pValue.Some? ==> 0.0 <= r.pValue.value <= 1.0
    ensures r.pValue.Some? ==>
              r.pValue.value == |DeleteriousHits(nullDel, fsNull, fsCt, r.numDeleterious)| as real
                                / numPermutations as real
  {
    if |mapped| == 0 then DeleteriousRecord(gene, 0, None)
    else
      var numDel := fsCt + SnvDeleterious(mapped, unmapped, annotate, delCalc);
      if numDel >= delThreshold then
        var nulls := AsReals(NullDeleterious(nullDel, fsNull, fsCt));
        DeleteriousHitsExact(nullDel, fsNull, fsCt, numDel);
        DeleteriousRecord(gene, numDel, Some(EmpiricalPValue(Upper, nulls, numDel as real, numPermutations)))
      else
        DeleteriousRecord(gene, numDel, None)
  }

  /** When the test is skipped (no mapped mutations, or too few deleterious
      ones) the result does not depend on the null sample or the frameshift
      draws: no permutation or binomial draw takes part. */
  lemma DeleteriousSkipIgnoresNulls(gene: string, mapped: seq<MappedMutation>, unmapped: seq<AaChange>,
                                    fsCt: nat, annotate: Annotator, delCalc: DeleteriousCalculator,
                                    numPermutations: nat, delThreshold: int,
                                    nullDel1: seq<int>, fsNull1: seq<nat>,
                                    nullDel2: seq<int>, fsNull2: seq<nat>)
    requires !RunsDeleteriousPermutations(mapped, unmapped, fsCt, annotate, delCalc, delThreshold)
    ensures DeleteriousTest(gene, mapped, unmapped, fsCt, annotate, delCalc, numPermutations,
                            delThreshold, nullDel1, fsNull1)
         == DeleteriousTest(gene, mapped, unmapped, fsCt, annotate, delCalc, numPermutations,
                            delThreshold, nullDel2, fsNull2)
         == DeleteriousRecord(gene, if |mapped| == 0 then 0
                                    else fsCt + SnvDeleterious(mapped, unmapped, annotate, delCalc), None)
  {
  }

  /** Folding in binomial frameshift draws in [0, fs_ct] lies between the
      SNV-only null and the null shifted by every frameshift: it can raise the
      p-value, never lower it, and by no more than counting all fs_ct
      frameshifts as deleterious in every trial would. */
  lemma FrameshiftFoldBounds(nullDel: seq<int>, fsNull: seq<nat>, fsCt: nat, numDel: int,
                             numPermutations: nat)
    requires fsCt > 0 && numPermutations >= 1
    requires |nullDel| == numPermutations && |fsNull| == numPermutations
    requires forall i :: 0 <= i < |fsNull| ==> fsNull[i] <= fsCt
    ensures var shifted := seq(|nullDel|, i requires 0 <= i < |nullDel| => nullDel[i] + fsCt);
            EmpiricalPValue(Upper, AsReals(nullDel), numDel as real, numPermutations)
            <= EmpiricalPValue(Upper, AsReals(NullDeleterious(nullDel, fsNull, fsCt)), numDel as real, numPermutations)
            <= EmpiricalPValue(Upper, AsReals(shifted), numDel as real, numPermutations)
  {
    var shifted := seq(|nullDel|, i requires 0 <= i < |nullDel| => nullDel[i] + fsCt);
    var lo := AsReals(nullDel);
    var mid := AsReals(NullDeleterious(nullDel, fsNull, fsCt));
    var hi := AsReals(shifted);
    UpperCountPointwise(lo, mid, numDel as real);
    UpperCountPointwise(mid, hi, numDel as real);
    FractionMonotone(CountExtreme(Upper, lo, numDel as real), CountExtreme(Upper, mid, numDel as real), numPermutations);
    FractionMonotone(CountExtreme(Upper, mid, numDel as real), CountExtreme(Upper, hi, numDel as real), numPermutations);
  }

  // ---------------------------------------------------------------------------
  // Position test

  function ObservedPosition(mapped: seq<MappedMutation>, unmapped: seq<AaChange>, annotate: Annotator,
                            posCalc: PositionCalculator, minRecurrent: int, minFraction: real): PositionStats
  {
    var info := ObservedChanges(mapped, unmapped, annotate);
    posCalc(CodonPositions(info), RefAas(info), SomaticAas(info), minFraction, minRecurrent)
  }

  /** calc_position_p_value. */
  function PositionTest(gene: string, mapped: seq<MappedMutation>, unmapped: seq<AaChange>,
                        annotate: Annotator, posCalc: PositionCalculator,
                        numPermutations: nat, minRecurrent: int, minFraction: real,
                        nullRecur: seq<int>, nullEntropy: seq<real>, nullDelta: seq<real>): (r: PositionRecord)
    requires |mapped| > 0 ==>
               && numPermutations >= 1
               && |nullRecur| == numPermutations
               && |nullEntropy| == numPermutations
               && |nullDelta| == numPermutations
    ensures r.gene == gene
    ensures |mapped| == 0 ==> r == PositionRecord(gene, 0, 0.0, 0.0, 1.0, 1.0, 1.0)
    ensures |mapped| > 0 ==>
              ObservedPosition(mapped, unmapped, annotate, posCalc, minRecurrent, minFraction)
              == PositionStats(r.numRecurrent, r.entropy, r.deltaEntropy)
    ensures 0.0 <= r.recurrentP <= 1.0 && 0.0 <= r.entropyP <= 1.0 && 0.0 <= r.deltaEntropyP <= 1.0
    ensures |mapped| > 0 ==>
              r.recurrentP == |set i: nat | i < |nullRecur| && nullRecur[i] >= r.numRecurrent| as real
                              / numPermutations as real
    ensures |mapped| > 0 ==>
              r.entropyP == |set i: nat | i < |nullEntropy| && nullEntropy[i] - Epsilon <= r.entropy| as real
                            / numPermutations as real
    ensures |mapped| > 0 ==>
              r.deltaEntropyP == |set i: nat | i < |nullDelta| && nullDelta[i] + Epsilon >= r.deltaEntropy| as real
                                 / numPermutations as real
  {
    if |mapped| == 0 then PositionRecord(gene, 0, 0.0, 0.0, 1.0, 1.0, 1.0)
    else
      var obs := ObservedPosition(mapped, unmapped, annotate, posCalc, minRecurrent, minFraction);
      PositionRecord(gene, obs.recurrent, obs.entropy, obs.deltaEntropy,
                     CountPValue(nullRecur, obs.recurrent, numPermutations),
                     LowerPValue(nullEntropy, obs.entropy, numPermutations),
                     UpperPValue(nullDelta, obs.deltaEntropy, numPermutations))
  }

  /** When every null trial's recurrence stays below the observed one, the
      recurrence p-value is exactly 0. */
  lemma PositionRecurrenceZero(gene: string, mapped: seq<MappedMutation>, unmapped: seq<AaChange>,
                               annotate: Annotator, posCalc: PositionCalculator,
                               numPermutations: nat, minRecurrent: int, minFraction: real,
                               nullRecur: seq<int>, nullEntropy: seq<real>, nullDelta: seq<real>)
    requires |mapped| > 0 && numPermutations >= 1
    requires |nullRecur| == numPermutations && |nullEntropy| == numPermutations
    requires |nullDelta| == numPermutations
    requires forall i :: 0 <= i < |nullRecur| ==>
               nullRecur[i] < ObservedPosition(mapped, unmapped, annotate, posCalc, minRecurrent, minFraction).recurrent
    ensures PositionTest(gene, mapped, unmapped, annotate, posCalc, numPermutations, minRecurrent,
                         minFraction, nullRecur, nullEntropy, nullDelta).recurrentP == 0.0
  {
    var r := PositionTest(gene, mapped, unmapped, annotate, posCalc, numPermutations, minRecurrent,
                          minFraction, nullRecur, nullEntropy, nullDelta);
    assert (set i: nat | i < |nullRecur| && nullRecur[i] >= r.numRecurrent) == {};
  }

  // ---------------------------------------------------------------------------
  // Effect test

  function ObservedEffect(mapped: seq<MappedMutation>, unmapped: seq<AaChange>, annotate: Annotator,
                          effectCalc: EffectCalculator, minRecurrent: int, minFraction: real): EffectStats
  {
    var info := ObservedChanges(mapped, unmapped, annotate);
    effectCalc(CodonPositions(info), RefAas(info), SomaticAas(info), minFraction, minRecurrent)
  }

  /** calc_effect_p_value: only the effect-entropy p-value is reported. */
  function EffectTest(gene: string, mapped: seq<MappedMutation>, unmapped: seq<AaChange>,
                      annotate: Annotator, effectCalc: EffectCalculator,
                      numPermutations: nat, minRecurrent: int, minFraction: real,
                      nullEffectEntropy: seq<real>): (r: EffectRecord)
    requires |mapped| > 0 ==> numPermutations >= 1 && |nullEffectEntropy| == numPermutations
    ensures r.gene == gene
    ensures |mapped| == 0 ==> r == EffectRecord(gene, 0, 0, 0.0, 1.0)
    ensures |mapped| > 0 ==>
              ObservedEffect(mapped, unmapped, annotate, effectCalc, minRecurrent, minFraction)
              == EffectStats(r.effectEntropy, r.numRecurrent, r.numInactivating)
    ensures 0.0 <= r.entropyP <= 1.0
    ensures |mapped| > 0 ==>
              r.entropyP == |set i: nat | i < |nullEffectEntropy|
                                          && nullEffectEntropy[i] - Epsilon <= r.effectEntropy| as real
                            / numPermutations as real
  {
    if |mapped| == 0 then EffectRecord(gene, 0, 0, 0.0, 1.0)
    else
      var obs := ObservedEffect(mapped, unmapped, annotate, effectCalc, minRecurrent, minFraction);
      EffectRecord(gene, obs.recurrent, obs.inactivating, obs.effectEntropy,
                   LowerPValue(nullEffectEntropy, obs.effectEntropy, numPermutations))
  }
}
