/** The inverse-frequency table behind the IDF cost policy. */
module Idf {
  import opened Wrappers
  import opened Sentences
  import opened Trees
  import opened Costs

  /** The lemmas of a sentence's word nodes, in order; artificial nodes contribute none. */
  function WordLemmas(nodes: seq<SentenceNode>): seq<string> {
    if nodes == [] then []
    else (if nodes[0].IsWord() then [nodes[0].lemmaForm] else []) + WordLemmas(nodes[1..])
  }

  function SentencesLemmas(ss: seq<Sentence>): seq<string> {
    if ss == [] then [] else WordLemmas(ss[0].nodes) + SentencesLemmas(ss[1..])
  }

  /** Every word lemma of the corpus: per pair, the text's sentences and then the hypothesis's. */
  function CorpusLemmas(data: seq<Pair>): seq<string> {
    if data == [] then []
    else SentencesLemmas(data[0].text) + SentencesLemmas(data[0].hypothesis) + CorpusLemmas(data[1..])
  }

  /** A lemma is listed exactly when some word node carries it. */
  lemma {:induction false} WordLemmasMembers(nodes: seq<SentenceNode>, l: string)
    ensures l in WordLemmas(nodes) <==> exists k :: 0 <= k < |nodes| && nodes[k].IsWord() && nodes[k].lemmaForm == l
    decreases |nodes|
  {
    if nodes != [] {
      WordLemmasMembers(nodes[1..], l);
      if exists k :: 0 <= k < |nodes[1..]| && nodes[1..][k].IsWord() && nodes[1..][k].lemmaForm == l {
        var k :| 0 <= k < |nodes[1..]| && nodes[1..][k].IsWord() && nodes[1..][k].lemmaForm == l;
        assert nodes[k + 1] == nodes[1..][k];
      }
      if exists k :: 0 <= k < |nodes| && nodes[k].IsWord() && nodes[k].lemmaForm == l {
        var k :| 0 <= k < |nodes| && nodes[k].IsWord() && nodes[k].lemmaForm == l;
        if k > 0 {
          assert nodes[1..][k - 1] == nodes[k];
        }
      }
    }
  }

  /** Counts each distinct lemma: the table's first pass. */
  method CountLemmas(lemmas: seq<string>) returns (counts: map<string, nat>)
    ensures counts.Keys == set l | l in lemmas
    ensures forall l :: l in counts ==> counts[l] == multiset(lemmas)[l]
  {
    counts := map[];
    var i := 0;
    while i < |lemmas|
      invariant 0 <= i <= |lemmas|
      invariant counts.Keys == set l | l in lemmas[..i]
      invariant forall l :: l in counts ==> counts[l] == multiset(lemmas[..i])[l]
    {
      var l := lemmas[i];
      var c := if l in counts then counts[l] else 0;
      assert lemmas[..i + 1] == lemmas[..i] + [l];
      counts := counts[l := c + 1];
      i := i + 1;
    }
    assert lemmas[..|lemmas|] == lemmas;
  }

  /** The table's second pass: every count replaced by its reciprocal. */
  method InvertCounts(counts: map<string, nat>) returns (idf: map<string, real>)
    requires forall l :: l in counts ==> counts[l] >= 1
    ensures idf.Keys == counts.Keys
    ensures forall l :: l in idf ==> idf[l] == 1.0 / (counts[l] as real)
    ensures forall l :: l in idf ==> idf[l] * (counts[l] as real) == 1.0
    ensures forall l :: l in idf ==> 0.0 < idf[l] <= 1.0
  {
    idf := map l | l in counts :: 1.0 / (counts[l] as real);
    forall l | l in idf
      ensures 0.0 < idf[l] <= 1.0 && idf[l] * (counts[l] as real) == 1.0
    {
      InverseOfCount(counts[l]);
    }
  }

  /**
   * calculate_idf: one entry per lemma seen on a word node anywhere in the
   * corpus, holding one over the number of its occurrences.
   */
  method CalculateIdf(data: seq<Pair>) returns (idf: map<string, real>)
    ensures idf.Keys == set l | l in CorpusLemmas(data)
    ensures forall l :: l in idf ==> idf[l] == 1.0 / (multiset(CorpusLemmas(data))[l] as real)
    ensures forall l :: l in idf ==> 0.0 < idf[l] <= 1.0
  {
    var lemmas := CorpusLemmas(data);
    var counts := CountLemmas(lemmas);
    forall l | l in counts
      ensures counts[l] >= 1
    {
      assert l in multiset(lemmas);
    }
    idf := InvertCounts(counts);
  }

  lemma InverseOfCount(n: nat)
    requires n >= 1
    ensures 0.0 < 1.0 / (n as real) <= 1.0
    ensures (1.0 / (n as real)) * (n as real) == 1.0
  {
    var x := n as real;
    assert 1.0 / x * x == 1.0;
  }

  /**
   * Against such a table, relabelling a word's tree node away costs at most
   * what the entailment policy charges, and never fails.
   */
  lemma IdfCostOnCorpusWord(data: seq<Pair>, idf: map<string, real>, a: Tree, b: Tree)
    requires idf.Keys == set l | l in CorpusLemmas(data)
    requires forall l :: l in idf ==> 0.0 < idf[l] <= 1.0
    requires a.tag in CorpusLemmas(data)
    ensures IdfCost(idf, Some(a), Some(b)).Success?
    ensures 0.0 <= IdfCost(idf, Some(a), Some(b)).value <= EntCost(Some(a), Some(b))
  {
    IdfWithinEnt(idf, Some(a), Some(b));
  }
}
