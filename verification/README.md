# Permutation p-values and BH correction for somatic-mutation tests

This project models the statistical core of the probabilistic2020 gene tests
in Dafny and proves properties of the model.

The tests decide whether a gene's observed somatic mutations are more
deleterious or more clustered than expected by chance. Chance is estimated
by a null distribution: the observed mutations are moved to random positions
that share their nucleotide context, and the statistic is recomputed on each
such permutation.

The model covers four parts:

- **Null generation** (`Permutation`, `Flatten`), for `deleterious_permutation`
  and `position_permutation`:
  - the observed somatic bases are flattened in context order;
  - each trial's context-matched position draws are concatenated (`np.hstack`)
    in the same order, so that draw and base line up index for index;
  - each row is annotated against the fixed base list;
  - exactly one statistic is recorded per row, in row order.
- **Empirical p-values** (`NullTally`, `Significance`), for
  `calc_deleterious_p_value`, `calc_position_p_value` and `calc_effect_p_value`:
  - a p-value is the fraction of null trials at least as extreme as the
    observed value;
  - the boundary comparison carries the `epsilon` tolerance, upward for
    counts and delta entropy and downward for entropy;
  - frameshift draws are folded into the deleterious null;
  - a minimum-deleterious threshold decides whether the test is run at all;
  - fixed sentinel rows are returned for genes without mappable mutations.
- **`cummin`** (`Fdr.CumMin`): R's running minimum.
- **`bh_fdr`** (`Fdr.BhFdr`, `Fdr.BhFdrWith`): the Benjamini–Hochberg
  step-up adjustment. It sorts with `argsort`, reverses, takes `cummin` of
  `n/i * p`, caps the values at 1, reverses back, and restores input order
  with the argsort of the argsort (`Sorting`).

Each operation is paired with an independent statement it must meet:

- The BH adjustment equals the textbook definition min(1, min over r ≥ j of
  n/(r+1)·p₍ᵣ₎).
- Argsort-of-argsort is the inverse permutation.
- Every p-value is the size of an explicit set of trials divided by the
  number of permutations.
- Flat indices map back to (context, k) pairs.

Modelling conventions:

- Floating-point numbers are modelled as exact reals.
- Integers are unbounded.
- The external pieces enter as parameters:
  - the codon annotator `get_aa_mut_info`;
  - the Cython calculators `calc_deleterious_info`, `calc_pos_info` and
    `calc_effect_info`;
  - the context-respecting position sampler `random_pos`;
  - the binomial frameshift draws.

  The annotator and calculators are function-typed parameters. The sampler's
  output and the binomial draws are input sequences.

## Model

| member | source | states |
|---|---|---|
| Fdr.CumMin | prob2020/python/p_value.py:22-27 | element i of the result is the minimum of x[0..i]: no larger than any of them and equal to one of them; the length is unchanged |
| Fdr.CumMinShape | prob2020/python/p_value.py:22-27 | the running minimum starts at x[0], never increases, and bounds every earlier input from below |
| Fdr.CumMinExample | prob2020/python/p_value.py:22-27 | [3,1,4,1,5] becomes [3,1,1,1,1] |
| Fdr.AdjustSorted | prob2020/python/p_value.py:52-55 | the adjusted list of sorted p-values has one value per input; Fdr.AdjustSortedIsReference gives each value |
| Fdr.AdjustSortedIsReference | prob2020/python/p_value.py:52-55 | on sorted p-values, reverse / scale by n/i / cummin / cap at 1 / reverse gives, at rank j, min(1, min over r >= j of n/(r+1)·p[r]) |
| Fdr.StepUpMinIsLeast | prob2020/python/p_value.py:54-55 | the step-up value at rank j is attained by some rank r >= j and is below every term at ranks >= j |
| Fdr.BhFdrWith | prob2020/python/p_value.py:46-56 | for any sorting permutation: same length as the input, every value at most 1, and the value of the input ranked j is the Benjamini–Hochberg reference value at rank j |
| Fdr.BhFdr | prob2020/python/p_value.py:46-56 | the same, with the concrete argsort |
| Fdr.RankOf | prob2020/python/p_value.py:56 | restoring original order sends input k to its own rank: the adjusted value of input k is the reference value at the rank holding p[k] |
| Fdr.BhFdrBounds | prob2020/python/p_value.py:46-56 | for p-values in [0, 1], every adjusted value lies between its raw p-value and 1 |
| Fdr.BhFdrMonotone | prob2020/python/p_value.py:46-56 | for non-negative p-values, p[k1] <= p[k2] implies adjusted[k1] <= adjusted[k2], so ties get equal adjusted values |
| Fdr.BhFdrTieBreakFree | prob2020/python/p_value.py:47-49 | for non-negative p-values, any two sorting permutations give the same adjusted vector, so the unstable argsort cannot change the result |
| Fdr.BhFdrAllEqual | prob2020/python/p_value.py:46-56 | a vector of equal p-values in [0, 1] comes back unchanged |
| Sorting.Argsort | prob2020/python/p_value.py:47 | the result is a permutation of the indices that lists the values in ascending order |
| Sorting.ArgsortInvertsPermutation | prob2020/python/p_value.py:48 | the argsort of a permutation is a permutation and is its two-sided inverse |
| Sorting.ArgsortsAgree | prob2020/python/p_value.py:47-49 | any two sorting permutations of the same values give the same sorted vector |
| Sorting.Unpermute | prob2020/python/p_value.py:56 | indexing by the argsort of the order sends the value at sorted position j back to input position order[j] |
| Sorting.Permute | prob2020/python/p_value.py:49 | reordering by an index list gives one value per index; Sorting.PermuteMultiset says the values are kept and Sorting.UnpermutePermute that the reordering can be undone |
| Sorting.UnpermutePermute | prob2020/python/p_value.py:47-56 | restoring the original order undoes the sort: reordering by a permutation and then by its argsort gives back the input |
| Sorting.PermuteMultiset | prob2020/python/p_value.py:49 | reordering by a permutation keeps the multiset of values |
| Sorting.SortedUnique | prob2020/python/p_value.py:49 | two sorted sequences with the same multiset of values are equal |
| NullTally.CountExtreme | prob2020/python/p_value.py:198-203 | the count is at most the number of trials, is 0 exactly when no trial is as extreme, and is the number of trials exactly when all are |
| NullTally.CountIsCardinality | prob2020/python/p_value.py:198-203 | the running count equals the size of the set of extreme trials |
| NullTally.EmpiricalPValue | prob2020/python/p_value.py:204-206 | the p-value lies in [0, 1], equals the fraction of extreme trials, is 0 exactly when no trial is extreme and 1 exactly when all are |
| NullTally.UpperPValue | prob2020/python/p_value.py:202-206 | the fraction of trials with null + epsilon >= observed |
| NullTally.LowerPValue | prob2020/python/p_value.py:200-205 | the fraction of trials with null - epsilon <= observed |
| NullTally.CountPValue | prob2020/python/p_value.py:198-204 | for integer counts, the fraction of trials whose count is >= the observed one: the tolerance has no effect |
| NullTally.IntegerUpperIsExact | prob2020/python/p_value.py:136-137 | for integers, x + epsilon >= y holds exactly when x >= y |
| NullTally.UpperPValueAntitone | prob2020/python/p_value.py:202-206 | raising the observed value never raises an upper-tail p-value |
| NullTally.LowerPValueMonotone | prob2020/python/p_value.py:200-205 | raising the observed value never lowers a lower-tail p-value |
| NullTally.UpperCountPointwise | prob2020/python/p_value.py:141-142 | raising every null value pointwise never lowers the upper-tail count |
| NullTally.CountConcat | prob2020/python/p_value.py:198-203 | the count over a concatenation is the sum of the counts |
| NullTally.CountOrderFree | prob2020/python/p_value.py:198-203 | the count depends only on the multiset of null values, not on trial order |
| Significance.DeleteriousHitsExact | prob2020/python/p_value.py:134-142 | with or without frameshifts, the tolerant comparison selects exactly the trials whose (frameshift-adjusted) count reaches the observed total |
| Significance.SnvDeleterious | prob2020/python/p_value.py:113-120 | for every annotation list in observed order (mapped mutations annotated from position and allele, then the unmapped ones), the SNV count is the calculator applied to that list's reference-AA, somatic-AA and codon-position columns; Significance.DeleteriousTest says how it enters the test |
| Significance.NullDeleterious | prob2020/python/p_value.py:139-142 | one adjusted null count per trial; Significance.DeleteriousHitsExact and Significance.FrameshiftFoldBounds state the per-trial values |
| Significance.DeleteriousTest | prob2020/python/p_value.py:99-151 | gene name passed through; with no mapped mutations the result is (0, None); otherwise the count is fs_ct plus the SNV count; a p-value is present exactly when there are mapped mutations and the count reaches the threshold, and it is the fraction of trials whose frameshift-adjusted null count reaches the observed total, in [0, 1] |
| Significance.DeleteriousSkipIgnoresNulls | prob2020/python/p_value.py:124-148 | when the test is skipped, the result is (count, None) whatever the null lists and frameshift draws are |
| Significance.FrameshiftFoldBounds | prob2020/python/p_value.py:138-143 | for binomial draws in [0, fs_ct], the p-value lies between the SNV-only one and the one with all fs_ct frameshifts added to every trial |
| Significance.PositionTest | prob2020/python/p_value.py:163-216 | sentinel (0, 0, 0, 1, 1, 1) without mapped mutations; otherwise the observed statistics come from the calculator, the recurrence p-value counts trials with null >= observed, entropy counts null - epsilon <= observed, delta entropy counts null + epsilon >= observed, and all three lie in [0, 1] |
| Significance.PositionRecurrenceZero | prob2020/python/p_value.py:198-204 | if every null recurrence is below the observed one, the recurrence p-value is 0 |
| Significance.EffectTest | prob2020/python/p_value.py:228-273 | sentinel (0, 0, 0, 1) without mapped mutations; otherwise observed statistics from the calculator and the effect-entropy p-value counts null - epsilon <= observed, in [0, 1] |
| Mutations.ObservedChanges | prob2020/python/p_value.py:113-118 | the annotated mapped mutations come first, in order, followed by the unmapped ones unchanged |
| Mutations.ObservedChangesUnique | prob2020/python/p_value.py:113-118 | the observed list is in observed order, and it is the only list in that order |
| Flatten.ConcatAt | permutation2020/python/permutation.py:36-38 | element k of block c sits at flat index (sum of earlier block lengths) + k |
| Flatten.ConcatLocate | permutation2020/python/permutation.py:36-38 | every flat index is element k of some block c at that offset |
| Flatten.Concat | permutation2020/python/permutation.py:36-38 | the flat list is as long as the blocks together; Flatten.ConcatAt and Flatten.ConcatLocate say where each element lands |
| Permutation.SomaticBases | permutation2020/python/permutation.py:35-38 | somatic_base holds as many bases as the context lists together; Permutation.RowAlignsWithBases says which base sits at each index |
| Permutation.SomaticBasesMatchCounts | permutation2020/python/permutation.py:35-43 | when each context's base list has its counted length, there is one base per counted mutation |
| Permutation.TrialRowAt | permutation2020/python/permutation.py:41-43 | context c's k-th draw of trial t sits at offset (earlier counts) + k of the trial's row |
| Permutation.TrialRow | permutation2020/python/permutation.py:41-43 | each trial row has one position per counted mutation; Permutation.TrialRowAt says which draw sits at each index |
| Permutation.RowAlignsWithBases | permutation2020/python/permutation.py:35-51 | a trial row and somatic_base have the same length, and the flat index of context c's k-th mutation holds that context's k-th draw in the row and its k-th observed base in somatic_base |
| Permutation.RowPositionsRespectContext | permutation2020/python/permutation.py:41-43 | if the sampler draws each labelled array's positions from its context's positions, every slot of every row holds a position of the slot's context |
| Permutation.TrialsShareBases | permutation2020/python/permutation.py:47-51 | every row is annotated against the same bases, so trials that drew the same position at a slot annotate the same mutation there |
| Permutation.TrialAnnotation | permutation2020/python/permutation.py:47-51 | a trial's annotation has one entry per somatic base; Permutation.TrialsShareBases gives each entry |
| Permutation.DeleteriousPermutation | permutation2020/python/permutation.py:46-57 | one deleterious count per trial, in trial order; count t is the calculator applied to the annotation of row t |
| Permutation.PositionPermutation | permutation2020/python/permutation.py:117-134 | three lists of one entry per trial; entry t of each comes from the single calculator call on row t |

## Left out

- `fishers_method` (prob2020/python/p_value.py:13-19) is not modelled. It needs the chi-square survival function and logarithms, which have no exact model over the reals.
- The pandas steps (prob2020/python/p_value.py:101-110) are not modelled: mapping positions to contexts, `value_counts` and `groupby`. The model starts from their results: an ordered list of (context, count) pairs and a map from context to base list, related by `Permutation.GroupingConsistent`.
- The codon annotators `mc.get_aa_mut_info` and `utils.get_aa_mut_info`, and the Cython calculators, are external code. They are function-typed parameters, so nothing is proved about their own results. The null loops call the position calculator without `min_frac`/`min_recur`, so it is a separate parameter there that uses its defaults.
- Randomness is not modelled. The `random_pos` output (one array per context, one row per trial) and the `prng.binomial` frameshift draws are input sequences. The seed, and the distribution of the draws, are outside the model.
- The sampler's output is assumed to have one (context, array) pair per entry of `context_counts`, in the same order, with `num_permutations` rows of `count` positions each (`Permutation.WellShapedDraws`). `seq_context.random_pos` is not part of this model, and the bases are paired with the draws only through that order, because `np.hstack` drops the context labels.
- The permutation methods require at least one context, because `np.hstack` of an empty list raises. No proof depends on this.
- The null loops call `calc_deleterious_info` with two arguments (permutation2020/python/permutation.py:54-55), but the observed path passes three (prob2020/python/p_value.py:119). The model gives the null calculator its own two-argument type, `Permutation.NullDeleteriousCalculator`, and does not relate it to the observed one.
- `Significance.DeleteriousTest`, `Significance.PositionTest` and `Significance.EffectTest` take the null lists as inputs; they do not call the permutation routines. The permutation methods produce lists of the shape these functions require.
- The observed and null annotators, `mc.get_aa_mut_info` (p_value.py) and `utils.get_aa_mut_info` (permutation.py), are modelled by separate parameters. They are not assumed to agree.
- `effect_permutation` is called at prob2020/python/p_value.py:241 but is not defined in permutation2020/python/permutation.py. It is not part of this model: `Significance.EffectTest` takes its effect-entropy null list as an input.
- `pseudo_count` is not modelled. prob2020/python/p_value.py passes it to the permutation routines, but the versions in permutation2020/python/permutation.py take no such argument.
- The numeric value of `utils.epsilon` comes from a module that is not part of this model. `NullTally.Epsilon` is a stand-in value, and every proof depends only on 0 < epsilon < 1.
- `num_permutations >= 1` is a precondition wherever a p-value is computed. The source divides by it and would fail at zero.
- The dead `np.zeros(n)` at prob2020/python/p_value.py:53 is not modelled. It is overwritten at once, and its float size argument is rejected by recent numpy.
- The in-place mutation of the argument by `cummin` is not modelled. `Fdr.CumMin` returns a new sequence; `bh_fdr` only ever passes it a temporary.
- `Sorting.Argsort`: numpy's default argsort is an unstable quicksort. The model uses a stable insertion sort, and states every BH property over any sorting permutation (`Fdr.BhFdrWith`). `Fdr.BhFdrTieBreakFree` shows the tie order does not matter for non-negative p-values.
- `Fdr.BhFdr` is stated over exact reals. Floating-point rounding of `n/i * p` is not modelled, nor are NaN p-values.
- The kernel-density entropy and bandwidth lists are not modelled. They appear in permutation2020/python/permutation.py only as commented-out code.
- tests/test_permutation_test.py is not modelled. Its end-to-end assertions depend on data files and the random sampler.
