/**
 * The two cost policies defined next to the builder. The engine calls a
 * policy with (first, second): first absent is an insertion of second,
 * second absent a deletion of first, both present a substitution.
 */
module Costs {
  import opened Wrappers
  import opened Trees

  /** An IDF lookup for a label the table does not hold (the source's KeyError). */
  datatype CostError = MissingFrequency(tag: string)

  /**
   * unit_costs_ent: inserting costs 1, deleting is free, and substituting
   * costs 1 exactly when the label changes.
   */
  function EntCost(a: Option<Tree>, b: Option<Tree>): (c: real)
    ensures c == 0.0 || c == 1.0
    ensures c == 0.0 <==> a.Some? && (b.None? || a.value.tag == b.value.tag)
  {
    if a.None? then 1.0
    else if b.None? then 0.0
    else if a.value.tag != b.value.tag then 1.0
    else 0.0
  }

  /**
   * unit_costs_idf: as EntCost, except that a label change costs the table
   * entry of the first node's label, and fails when there is none.
   */
  function IdfCost(idf: map<string, real>, a: Option<Tree>, b: Option<Tree>): (r: Result<real, CostError>)
    ensures r.Failure? <==> a.Some? && b.Some? && a.value.tag != b.value.tag && a.value.tag !in idf
    ensures r.Failure? ==> r.error == MissingFrequency(a.value.tag)
    ensures r.Success? && EntCost(a, b) == 0.0 ==> r.value == 0.0
    ensures r.Success? && a.None? ==> r.value == 1.0
    ensures r.Success? && a.Some? && b.Some? && a.value.tag != b.value.tag ==> r.value == idf[a.value.tag]
  {
    if a.None? then Success(1.0)
    else if b.None? then Success(0.0)
    else if a.value.tag != b.value.tag then
      if a.value.tag in idf then Success(idf[a.value.tag]) else Failure(MissingFrequency(a.value.tag))
    else Success(0.0)
  }

  /** Both policies look only at labels and at which side is absent, never at children. */
  lemma CostsSeeOnlyLabels(idf: map<string, real>, a: Option<Tree>, b: Option<Tree>, a': Option<Tree>, b': Option<Tree>)
    requires a.Some? == a'.Some? && b.Some? == b'.Some?
    requires a.Some? ==> a.value.tag == a'.value.tag
    requires b.Some? ==> b.value.tag == b'.value.tag
    ensures EntCost(a, b) == EntCost(a', b')
    ensures IdfCost(idf, a, b) == IdfCost(idf, a', b')
  {
  }

  /** With every table entry equal to 1 the IDF policy is the entailment policy. */
  lemma IdfOfOnesIsEnt(idf: map<string, real>, a: Option<Tree>, b: Option<Tree>)
    requires forall l :: l in idf ==> idf[l] == 1.0
    requires a.Some? ==> a.value.tag in idf
    ensures IdfCost(idf, a, b) == Success(EntCost(a, b))
  {
  }

  /**
   * With table entries in (0, 1], an IDF cost is bounded by the entailment
   * cost and is zero exactly where the entailment cost is.
   */
  lemma IdfWithinEnt(idf: map<string, real>, a: Option<Tree>, b: Option<Tree>)
    requires forall l :: l in idf ==> 0.0 < idf[l] <= 1.0
    requires IdfCost(idf, a, b).Success?
    ensures 0.0 <= IdfCost(idf, a, b).value <= EntCost(a, b)
    ensures IdfCost(idf, a, b).value == 0.0 <==> EntCost(a, b) == 0.0
  {
  }

  /**
   * Relabelling the "T" anchor into the "H" anchor fails under the IDF
   * policy unless "T" itself has a table entry.
   */
  lemma IdfAnchorsMissTable(idf: map<string, real>, ts: Forest, hs: Forest)
    requires "T" !in idf
    ensures IdfCost(idf, Some(Node("T", ts)), Some(Node("H", hs))) == Failure(MissingFrequency("T"))
  {
  }
}
