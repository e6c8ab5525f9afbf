/** Shared vocabulary: somatic bases, amino-acid annotations of single-nucleotide
    mutations, and the statistic tuples the external calculators return. The
    annotator and the calculators are external code; they enter the model as
    function-typed parameters. */
module Mutations {

  type Base = char
  type AminoAcid = string

  /** One annotated mutation: the 'Reference AA', 'Somatic AA' and 'Codon Pos'
      columns of a get_aa_mut_info result. */
  datatype AaChange = AaChange(refAa: AminoAcid, somaticAa: AminoAcid, codonPos: int)

  /** A mutation mappable to the reference transcript: its coding position and
      the tumor allele. */
  datatype MappedMutation = MappedMutation(codingPos: int, tumorAllele: Base)

  /** (recurrent count, positional entropy, delta entropy) from calc_pos_info. */
  datatype PositionStats = PositionStats(recurrent: int, entropy: real, deltaEntropy: real)

  /** (effect entropy, recurrent count, inactivating count) from calc_effect_info. */
  datatype EffectStats = EffectStats(effectEntropy: real, recurrent: int, inactivating: int)

  /** get_aa_mut_info, one mutation at a time: coding position and substituted
      base to its amino-acid change. */
  type Annotator = (int, Base) -> AaChange

  /** Annotates positions[i] with bases[i] for every i: the row-wise call that
      pairs each position with the base at the same index. */
  function AnnotateRow(annotate: Annotator, positions: seq<int>, bases: seq<Base>): (info: seq<AaChange>)
    requires |positions| == |bases|
    ensures |info| == |positions|
  {
    seq(|positions|, i requires 0 <= i < |positions| => annotate(positions[i], bases[i]))
  }

  function RefAas(info: seq<AaChange>): (r: seq<AminoAcid>)
    ensures |r| == |info|
  {
    seq(|info|, i requires 0 <= i < |info| => info[i].refAa)
  }

  function SomaticAas(info: seq<AaChange>): (r: seq<AminoAcid>)
    ensures |r| == |info|
  {
    seq(|info|, i requires 0 <= i < |info| => info[i].somaticAa)
  }

  function CodonPositions(info: seq<AaChange>): (r: seq<int>)
    ensures |r| == |info|
  {
    seq(|info|, i requires 0 <= i < |info| => info[i].codonPos)
  }

  /** The observed mutations of a gene as the calculators see them: the
      annotated mappable mutations followed by the unmapped ones, whose
      annotation arrives precomputed. */
  function ObservedChanges(mapped: seq<MappedMutation>, unmapped: seq<AaChange>, annotate: Annotator)
    : (info: seq<AaChange>)
    ensures |info| == |mapped| + |unmapped|
    ensures forall i :: 0 <= i < |mapped| ==>
              info[i] == annotate(mapped[i].codingPos, mapped[i].tumorAllele)
    ensures forall j :: 0 <= j < |unmapped| ==> info[|mapped| + j] == unmapped[j]
  {
    var positions := seq(|mapped|, i requires 0 <= i < |mapped| => mapped[i].codingPos);
    var alleles := seq(|mapped|, i requires 0 <= i < |mapped| => mapped[i].tumorAllele);
    AnnotateRow(annotate, positions, alleles) + unmapped
  }

  /** An annotation list in observed order: the mapped mutations, each
      annotated from its position and allele, then the unmapped ones as given. */
  predicate InObservedOrder(mapped: seq<MappedMutation>, unmapped: seq<AaChange>, annotate: Annotator,
                            info: seq<AaChange>)
  {
    && |info| == |mapped| + |unmapped|
    && (forall i :: 0 <= i < |mapped| ==> info[i] == annotate(mapped[i].codingPos, mapped[i].tumorAllele))
    && (forall j :: 0 <= j < |unmapped| ==> info[|mapped| + j] == unmapped[j])
  }

  /** ObservedChanges is the one list in observed order. */
  lemma ObservedChangesUnique(mapped: seq<MappedMutation>, unmapped: seq<AaChange>, annotate: Annotator)
    ensures InObservedOrder(mapped, unmapped, annotate, ObservedChanges(mapped, unmapped, annotate))
    ensures forall info :: InObservedOrder(mapped, unmapped, annotate, info) ==>
              info == ObservedChanges(mapped, unmapped, annotate)
  {
    var obs := ObservedChanges(mapped, unmapped, annotate);
    forall info | InObservedOrder(mapped, unmapped, annotate, info)
      ensures info == obs
    {
      forall k | 0 <= k < |info|
        ensures info[k] == obs[k]
      {
        if k >= |mapped| {
          assert info[|mapped| + (k - |mapped|)] == unmapped[k - |mapped|];
        }
      }
    }
  }
}
