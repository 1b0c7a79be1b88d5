/**
 * Size preservation of the forest builder: when every parent id resolves
 * and the parent links are acyclic, the forest has exactly one tree node per
 * sentence node. Acyclicity is witnessed by a depth labelling `d`: roots at
 * depth 0, every other node one deeper than its parent.
 */
module BuilderSize {
  import opened Wrappers
  import opened Sentences
  import opened Trees
  import opened TreeBuilder

  /** Node k sits at depth 0 if it is a root, else one below the node its parent id names. */
  ghost predicate DepthStep(nodes: seq<SentenceNode>, d: seq<nat>, k: nat)
    requires |d| == |nodes| && k < |nodes|
  {
    if nodes[k].IsRoot() then d[k] == 0
    else exists j :: 0 <= j < |nodes| && nodes[j].id == nodes[k].ParentKey() && d[k] == d[j] + 1
  }

  ghost predicate IsDepth(nodes: seq<SentenceNode>, d: seq<nat>) {
    |d| == |nodes| && forall k: nat :: k < |nodes| ==> DepthStep(nodes, d, k)
  }

  /** The index of the node a non-root node names as parent. */
  ghost function Parent(s: Sentence, d: seq<nat>, k: nat): (j: nat)
    requires WellFormed(s) && IsDepth(s.nodes, d)
    requires k < |s.nodes| && !s.nodes[k].IsRoot()
    ensures j < |s.nodes| && s.nodes[j].id == s.nodes[k].ParentKey() && d[k] == d[j] + 1
  {
    assert DepthStep(s.nodes, d, k);
    var j :| 0 <= j < |s.nodes| && s.nodes[j].id == s.nodes[k].ParentKey() && d[k] == d[j] + 1;
    j
  }

  /** Exactly the roots sit at depth 0. */
  lemma RootsAtDepthZero(s: Sentence, d: seq<nat>, k: nat)
    requires IsDepth(s.nodes, d) && k < |s.nodes|
    ensures s.nodes[k].IsRoot() <==> d[k] == 0
  {
    assert DepthStep(s.nodes, d, k);
  }

  /** The ancestor m parent steps above node k. */
  ghost function Up(s: Sentence, d: seq<nat>, k: nat, m: nat): (a: nat)
    requires WellFormed(s) && IsDepth(s.nodes, d)
    requires k < |s.nodes| && m <= d[k]
    ensures a < |s.nodes| && d[a] == d[k] - m
    decreases m
  {
    if m == 0 then k else RootsAtDepthZero(s, d, k); Up(s, d, Parent(s, d, k), m - 1)
  }

  lemma {:induction false} UpStep(s: Sentence, d: seq<nat>, k: nat, m: nat)
    requires WellFormed(s) && IsDepth(s.nodes, d)
    requires k < |s.nodes| && m < d[k]
    ensures !s.nodes[Up(s, d, k, m)].IsRoot()
    ensures Up(s, d, k, m + 1) == Parent(s, d, Up(s, d, k, m))
    decreases m
  {
    RootsAtDepthZero(s, d, k);
    if m > 0 {
      UpStep(s, d, Parent(s, d, k), m - 1);
    } else {
      RootsAtDepthZero(s, d, Up(s, d, k, m));
    }
  }

  /** Node j is the parent of k exactly when k's parent id is j's id. */
  lemma ParentUnique(s: Sentence, d: seq<nat>, k: nat, j: nat)
    requires WellFormed(s) && IsDepth(s.nodes, d)
    requires k < |s.nodes| && j < |s.nodes| && !s.nodes[k].IsRoot()
    requires s.nodes[j].id == s.nodes[k].ParentKey()
    ensures Parent(s, d, k) == j
  {
  }

  /** The indices of the nodes at or below node i. */
  ghost function Desc(s: Sentence, d: seq<nat>, i: nat): set<nat>
    requires WellFormed(s) && IsDepth(s.nodes, d) && i < |s.nodes|
  {
    set k: nat | k < |s.nodes| && d[k] >= d[i] && Up(s, d, k, d[k] - d[i]) == i
  }

  ghost function UnionDesc(s: Sentence, d: seq<nat>, cs: seq<nat>): set<nat>
    requires WellFormed(s) && IsDepth(s.nodes, d)
    requires forall k :: 0 <= k < |cs| ==> cs[k] < |s.nodes|
  {
    if cs == [] then {} else Desc(s, d, cs[0]) + UnionDesc(s, d, cs[1..])
  }

  lemma {:induction false} InUnionDesc(s: Sentence, d: seq<nat>, cs: seq<nat>, x: nat)
    requires WellFormed(s) && IsDepth(s.nodes, d)
    requires forall k :: 0 <= k < |cs| ==> cs[k] < |s.nodes|
    ensures x in UnionDesc(s, d, cs) <==> exists a :: 0 <= a < |cs| && x in Desc(s, d, cs[a])
  {
    if cs != [] {
      InUnionDesc(s, d, cs[1..], x);
      if x in UnionDesc(s, d, cs[1..]) {
        var a :| 0 <= a < |cs[1..]| && x in Desc(s, d, cs[1..][a]);
        assert x in Desc(s, d, cs[a + 1]);
      }
      if exists a :: 0 <= a < |cs| && x in Desc(s, d, cs[a]) {
        var a :| 0 <= a < |cs| && x in Desc(s, d, cs[a]);
        if a > 0 {
          assert cs[1..][a - 1] == cs[a];
        }
      }
    }
  }

  /** Distinct nodes of equal depth head disjoint subtrees. */
  lemma DescDisjoint(s: Sentence, d: seq<nat>, j1: nat, j2: nat)
    requires WellFormed(s) && IsDepth(s.nodes, d)
    requires j1 < |s.nodes| && j2 < |s.nodes| && j1 != j2 && d[j1] == d[j2]
    ensures Desc(s, d, j1) !! Desc(s, d, j2)
  {
  }

  /**
   * Sizes add up over sibling trees: trees Shaped at distinct nodes of one
   * depth count their subtrees' nodes without overlap.
   */
  lemma {:induction false} SiblingSizes(s: Sentence, d: seq<nat>, cs: seq<nat>, ts: seq<Tree>, e: nat)
    requires WellFormed(s) && IsDepth(s.nodes, d)
    requires forall k :: 0 <= k < |cs| ==> cs[k] < |s.nodes| && d[cs[k]] == e
    requires forall a, b :: 0 <= a < b < |cs| ==> cs[a] < cs[b]
    requires |ts| == |cs|
    requires forall k :: 0 <= k < |cs| ==> Size(ts[k]) == |Desc(s, d, cs[k])|
    ensures ForestSize(ts) == |UnionDesc(s, d, cs)|
  {
    if cs != [] {
      SiblingSizes(s, d, cs[1..], ts[1..], e);
      forall x | x in Desc(s, d, cs[0])
        ensures x !in UnionDesc(s, d, cs[1..])
      {
        InUnionDesc(s, d, cs[1..], x);
        forall a | 0 <= a < |cs[1..]|
          ensures x !in Desc(s, d, cs[1..][a])
        {
          DescDisjoint(s, d, cs[0], cs[1..][a]);
        }
      }
    }
  }

  /** A node naming i as parent sits one below i. */
  lemma ChildDepth(s: Sentence, d: seq<nat>, i: nat, j: nat)
    requires WellFormed(s) && IsDepth(s.nodes, d) && i < |s.nodes| && j < |s.nodes|
    requires s.nodes[j].ParentKey() == s.nodes[i].id
    ensures !s.nodes[j].IsRoot() && Parent(s, d, j) == i && d[j] == d[i] + 1
  {
    assert s.nodes[i].id != "";
    ParentUnique(s, d, j, i);
  }

  /** Whatever lies strictly below i lies at or below one of i's children. */
  lemma BelowSomeChild(s: Sentence, d: seq<nat>, i: nat, x: nat) returns (a: nat)
    requires WellFormed(s) && IsDepth(s.nodes, d) && i < |s.nodes|
    requires x in Desc(s, d, i) && x != i
    ensures var cs := Attached(s.nodes, s.nodes[i].id, 0);
            a < |cs| && x in Desc(s, d, cs[a])
  {
    var cs := Attached(s.nodes, s.nodes[i].id, 0);
    var m := d[x] - d[i];
    var j := Up(s, d, x, m - 1);
    UpStep(s, d, x, m - 1);
    ParentUnique(s, d, j, i);
    assert j in cs;
    a :| 0 <= a < |cs| && cs[a] == j;
  }

  /** Whatever lies at or below a child of i lies strictly below i. */
  lemma BelowChild(s: Sentence, d: seq<nat>, i: nat, j: nat, x: nat)
    requires WellFormed(s) && IsDepth(s.nodes, d) && i < |s.nodes| && j < |s.nodes|
    requires s.nodes[j].ParentKey() == s.nodes[i].id
    requires x in Desc(s, d, j)
    ensures x in Desc(s, d, i) && x != i
  {
    ChildDepth(s, d, i, j);
    var m := d[x] - d[j];
    UpStep(s, d, x, m);
  }

  /** The nodes below i are i itself and, disjointly, the nodes below its children. */
  lemma DescSplit(s: Sentence, d: seq<nat>, i: nat)
    requires WellFormed(s) && IsDepth(s.nodes, d) && i < |s.nodes|
    ensures var cs := Attached(s.nodes, s.nodes[i].id, 0);
            && (forall k :: 0 <= k < |cs| ==> d[cs[k]] == d[i] + 1)
            && Desc(s, d, i) == {i} + UnionDesc(s, d, cs)
            && i !in UnionDesc(s, d, cs)
  {
    var cs := Attached(s.nodes, s.nodes[i].id, 0);
    forall k | 0 <= k < |cs|
      ensures d[cs[k]] == d[i] + 1
    {
      ChildDepth(s, d, i, cs[k]);
    }
    forall x | x in Desc(s, d, i) && x != i
      ensures x in UnionDesc(s, d, cs)
    {
      var a := BelowSomeChild(s, d, i, x);
      InUnionDesc(s, d, cs, x);
    }
    forall x | x in UnionDesc(s, d, cs)
      ensures x in Desc(s, d, i) && x != i
    {
      InUnionDesc(s, d, cs, x);
      var a :| 0 <= a < |cs| && x in Desc(s, d, cs[a]);
      BelowChild(s, d, i, cs[a], x);
    }
    assert i in Desc(s, d, i);
  }

  /** A Shaped tree has exactly as many nodes as there are nodes at or below its head. */
  lemma {:induction false} ShapedSize(s: Sentence, d: seq<nat>, i: nat, t: Tree)
    requires WellFormed(s) && IsDepth(s.nodes, d)
    requires Shaped(s.nodes, i, t)
    ensures Size(t) == |Desc(s, d, i)|
    decreases t
  {
    var cs := Attached(s.nodes, s.nodes[i].id, 0);
    forall k | 0 <= k < |cs|
      ensures Size(t.children[k]) == |Desc(s, d, cs[k])|
    {
      ShapedSize(s, d, cs[k], t.children[k]);
    }
    DescSplit(s, d, i);
    SiblingSizes(s, d, cs, t.children, d[i] + 1);
  }

  /** With a depth labelling no parent id dangles. */
  lemma DepthResolves(s: Sentence, d: seq<nat>)
    requires WellFormed(s) && IsDepth(s.nodes, d)
    ensures forall k :: 0 <= k < |s.nodes| ==> !Dangling(s.nodes, k)
  {
    forall k | 0 <= k < |s.nodes|
      ensures !Dangling(s.nodes, k)
    {
      if !s.nodes[k].IsRoot() {
        var j := Parent(s, d, k);
      }
    }
  }

  /**
   * Every node lies below some root. The roots all sit at depth zero, so
   * `DescDisjoint` makes their descendant sets pairwise disjoint.
   */
  lemma RootsCoverAll(s: Sentence, d: seq<nat>)
    requires WellFormed(s) && IsDepth(s.nodes, d)
    ensures UnionDesc(s, d, Attached(s.nodes, "", 0)) == Indices(|s.nodes|)
  {
    var roots := Attached(s.nodes, "", 0);
    forall x: nat | x < |s.nodes|
      ensures x in UnionDesc(s, d, roots)
    {
      var r := Up(s, d, x, d[x]);
      RootsAtDepthZero(s, d, r);
      var a :| 0 <= a < |roots| && roots[a] == r;
      assert x in Desc(s, d, roots[a]);
      InUnionDesc(s, d, roots, x);
    }
    forall x | x in UnionDesc(s, d, roots)
      ensures x < |s.nodes|
    {
      InUnionDesc(s, d, roots, x);
    }
  }

  /**
   * Size preserved: with resolving, acyclic parent links the build succeeds
   * and its forest has one node per sentence node.
   */
  lemma SizePreserved(s: Sentence, d: seq<nat>)
    requires WellFormed(s) && IsDepth(s.nodes, d)
    ensures MakeTree(s).Success?
    ensures ForestSize(MakeTree(s).value) == |s.nodes|
  {
    DepthResolves(s, d);
    var f := MakeTree(s).value;
    var roots := Attached(s.nodes, "", 0);
    MakeTreeShape(s);
    forall k | 0 <= k < |roots|
      ensures Size(f[k]) == |Desc(s, d, roots[k])| && d[roots[k]] == 0
    {
      ShapedSize(s, d, roots[k], f[k]);
      RootsAtDepthZero(s, d, roots[k]);
    }
    SiblingSizes(s, d, roots, f, 0);
    RootsCoverAll(s, d);
  }
}
