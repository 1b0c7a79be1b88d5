/**
 * Forest assembly and the calls into the edit-distance engine. The engine
 * itself lives in a library that is not part of this model, so it enters
 * every member as a parameter `distance`.
 */
module Assembly {
  import opened Wrappers
  import opened Sentences
  import opened Trees
  import opened TreeBuilder
  import opened BuilderSize

  /**
   * The cost policies the engine can be handed. `UnitCosts` is the engine
   * library's own symmetric policy; the other two are modelled in Costs:
   * the tag `EntailmentCosts` stands for `Costs.EntCost`, and `IdfCosts(t)`
   * for `Costs.IdfCost` with table `t`.
   */
  datatype CostModel = UnitCosts | EntailmentCosts | IdfCosts(idf: map<string, real>)

  /** Anything that maps two trees and a cost policy to a distance. */
  type Engine = (Tree, Tree, CostModel) -> real

  /**
   * The roots of every sentence, concatenated in sentence order, or the
   * error of the first sentence that fails to build.
   */
  function BuildSentences(ss: seq<Sentence>): Result<Forest, BuildError> {
    if ss == [] then Success([])
    else
      var first :- MakeTree(ss[0]);
      var rest :- BuildSentences(ss[1..]);
      Success(first + rest)
  }

  /**
   * The sentence list builds exactly when every sentence does, and otherwise
   * fails with the error of the first sentence that fails.
   */
  lemma {:induction false} BuildSentencesOutcome(ss: seq<Sentence>)
    ensures BuildSentences(ss).Success? <==> forall k :: 0 <= k < |ss| ==> MakeTree(ss[k]).Success?
    ensures BuildSentences(ss).Failure? ==>
              exists k :: 0 <= k < |ss| && MakeTree(ss[k]) == Failure(BuildSentences(ss).error)
                          && forall j :: 0 <= j < k ==> MakeTree(ss[j]).Success?
    decreases |ss|
  {
    if ss != [] {
      BuildSentencesOutcome(ss[1..]);
      assert forall k :: 0 < k < |ss| ==> ss[1..][k - 1] == ss[k];
      if MakeTree(ss[0]).Success? && BuildSentences(ss[1..]).Failure? {
        var k :| 0 <= k < |ss[1..]| && MakeTree(ss[1..][k]) == Failure(BuildSentences(ss[1..]).error)
                 && forall j :: 0 <= j < k ==> MakeTree(ss[1..][j]).Success?;
        assert MakeTree(ss[k + 1]) == Failure(BuildSentences(ss).error);
        assert forall j :: 0 <= j < k + 1 ==> MakeTree(ss[j]).Success?;
      }
    }
  }

  /** Building a concatenation of sentence lists concatenates their forests. */
  lemma {:induction false} BuildSentencesAppend(ss1: seq<Sentence>, ss2: seq<Sentence>)
    requires BuildSentences(ss1).Success? && BuildSentences(ss2).Success?
    ensures BuildSentences(ss1 + ss2) == Success(BuildSentences(ss1).value + BuildSentences(ss2).value)
    decreases |ss1|
  {
    var f2 := BuildSentences(ss2).value;
    if ss1 == [] {
      assert ss1 + ss2 == ss2;
      assert BuildSentences(ss1).value + f2 == f2;
    } else {
      var ss := ss1 + ss2;
      assert ss[1..] == ss1[1..] + ss2;
      assert ss[0] == ss1[0];
      var f0 := MakeTree(ss1[0]).value;
      var f1 := BuildSentences(ss1[1..]).value;
      BuildSentencesAppend(ss1[1..], ss2);
      assert f0 + (f1 + f2) == (f0 + f1) + f2;
    }
  }

  /** A single sentence contributes exactly its own roots. */
  lemma BuildOneSentence(s: Sentence)
    ensures BuildSentences([s]) == MakeTree(s)
  {
    assert [s][1..] == [];
    if MakeTree(s).Success? {
      assert MakeTree(s).value + [] == MakeTree(s).value;
    }
  }

  /** The anchor tree: a synthetic root labelled `tag` over all sentences' roots. */
  function Anchor(tag: string, ss: seq<Sentence>): (r: Result<Tree, BuildError>)
    ensures r.Success? <==> BuildSentences(ss).Success?
    ensures r.Success? ==> r.value.tag == tag && r.value.children == BuildSentences(ss).value
    ensures r.Failure? ==> r.error == BuildSentences(ss).error
  {
    var roots :- BuildSentences(ss);
    Success(Node(tag, roots))
  }

  /** Total number of sentence nodes. */
  function NodeCount(ss: seq<Sentence>): nat {
    if ss == [] then 0 else |ss[0].nodes| + NodeCount(ss[1..])
  }

  ghost predicate AllAcyclic(ss: seq<Sentence>, ds: seq<seq<nat>>) {
    |ds| == |ss| && forall k :: 0 <= k < |ss| ==> IsDepth(ss[k].nodes, ds[k])
  }

  /**
   * With resolving, acyclic parent links everywhere, the forest of a
   * sentence list has one node per sentence node.
   */
  lemma {:induction false} BuildSentencesSize(ss: seq<Sentence>, ds: seq<seq<nat>>)
    requires AllWellFormed(ss) && AllAcyclic(ss, ds)
    ensures BuildSentences(ss).Success?
    ensures ForestSize(BuildSentences(ss).value) == NodeCount(ss)
    decreases |ss|
  {
    if ss != [] {
      SizePreserved(ss[0], ds[0]);
      assert AllAcyclic(ss[1..], ds[1..]) by {
        forall k | 0 <= k < |ss[1..]|
          ensures IsDepth(ss[1..][k].nodes, ds[1..][k])
        {
          assert ss[1..][k] == ss[k + 1] && ds[1..][k] == ds[k + 1];
        }
      }
      BuildSentencesSize(ss[1..], ds[1..]);
      ForestSizeAppend(MakeTree(ss[0]).value, BuildSentences(ss[1..]).value);
    }
  }

  /** The anchor adds exactly one node on top of the sentence nodes. */
  lemma AnchorSize(tag: string, ss: seq<Sentence>, ds: seq<seq<nat>>)
    requires AllWellFormed(ss) && AllAcyclic(ss, ds)
    ensures Anchor(tag, ss).Success?
    ensures Size(Anchor(tag, ss).value) == 1 + NodeCount(ss)
  {
    BuildSentencesSize(ss, ds);
  }

  /**
   * calculate_tree_edit_dist: the engine applied to the "T" anchor of the
   * text and the "H" anchor of the hypothesis; the text is built first, so
   * its error wins when both sides fail.
   */
  function TreeEditDist(p: Pair, cost: CostModel, distance: Engine): (r: Result<real, BuildError>)
    ensures r.Success? <==> Anchor("T", p.text).Success? && Anchor("H", p.hypothesis).Success?
    ensures Anchor("T", p.text).Failure? ==> r == Failure(Anchor("T", p.text).error)
    ensures Anchor("T", p.text).Success? && Anchor("H", p.hypothesis).Failure? ==>
              r == Failure(Anchor("H", p.hypothesis).error)
    ensures r.Success? ==>
              r.value == distance(Node("T", BuildSentences(p.text).value),
                                  Node("H", BuildSentences(p.hypothesis).value), cost)
  {
    var t :- Anchor("T", p.text);
    var h :- Anchor("H", p.hypothesis);
    Success(distance(t, h, cost))
  }

  /**
   * calculate_tree_edit_dist_hypothesis: the cost, under the entailment
   * policy, of reaching the "H" anchor from a single empty-labelled node.
   */
  function HypothesisBaseline(hypothesis: seq<Sentence>, distance: Engine): (r: Result<real, BuildError>)
    ensures r.Success? <==> BuildSentences(hypothesis).Success?
    ensures r.Failure? ==> r.error == BuildSentences(hypothesis).error
    ensures r.Success? ==>
              r.value == distance(Node("", []), Node("H", BuildSentences(hypothesis).value), EntailmentCosts)
  {
    var h :- Anchor("H", hypothesis);
    Success(distance(Node("", []), h, EntailmentCosts))
  }
}
