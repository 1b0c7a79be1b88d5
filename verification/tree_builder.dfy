/**
 * The forest builder: one tree node per sentence node, each node hung under
 * the node its parent id names, parentless nodes as roots.
 *
 * The source builds a table of mutable nodes keyed by id and then appends
 * every node to its parent's child list. The model keeps the same two
 * passes as an arena: `Attached` is the child list pass two accumulates for
 * a given id, and `Subtree` reads the resulting object graph off as an
 * immutable tree.
 */
module TreeBuilder {
  import opened Wrappers
  import opened Sentences
  import opened Trees

  /** A parent id that names no node of the sentence (the source's KeyError). */
  datatype BuildError = DanglingParent(node: string, parent: string)

  /** The indices 0 .. n-1. */
  function Indices(n: nat): (r: set<nat>)
    ensures forall k: nat :: k in r <==> k < n
    ensures |r| == n
  {
    if n == 0 then {} else Indices(n - 1) + {n - 1}
  }

  /** The set of elements of an index sequence. */
  function Elems(p: seq<nat>): set<nat> {
    set x | x in p
  }

  /**
   * The indices j >= from, in sentence order, of the nodes whose parent key
   * is `key`: the child list of the node with id `key` after pass two, or
   * the root list when `key` is "".
   */
  function Attached(nodes: seq<SentenceNode>, key: string, from: nat): (r: seq<nat>)
    requires from <= |nodes|
    decreases |nodes| - from
    ensures forall k :: 0 <= k < |r| ==> from <= r[k] < |nodes| && nodes[r[k]].ParentKey() == key
    ensures forall j :: from <= j < |nodes| && nodes[j].ParentKey() == key ==> j in r
    ensures forall a, b :: 0 <= a < b < |r| ==> r[a] < r[b]
  {
    if from == |nodes| then []
    else if nodes[from].ParentKey() == key then [from] + Attached(nodes, key, from + 1)
    else Attached(nodes, key, from + 1)
  }

  /** `xs` without the elements of `ex`, order kept. */
  function Without(xs: seq<nat>, ex: set<nat>): (r: seq<nat>)
    ensures forall k :: 0 <= k < |r| ==> r[k] in xs && r[k] !in ex
    ensures (forall x :: x in xs ==> x !in ex) ==> r == xs
  {
    if xs == [] then []
    else if xs[0] in ex then Without(xs[1..], ex)
    else [xs[0]] + Without(xs[1..], ex)
  }

  /**
   * The tree the node at index i heads, given the indices `above` on the
   * way down from its root. A child already in `above` would close a cycle;
   * SubtreeShaped shows none exists below a root, so skipping them loses
   * nothing.
   */
  function Subtree(nodes: seq<SentenceNode>, i: nat, above: set<nat>): Tree
    requires i < |nodes| && i !in above
    decreases Indices(|nodes|) - above, 0
  {
    var here := above + {i};
    assert Indices(|nodes|) - here < Indices(|nodes|) - above by {
      assert i in Indices(|nodes|) - above;
    }
    Node(nodes[i].Label(), Subtrees(nodes, Without(Attached(nodes, nodes[i].id, 0), here), here))
  }

  /** The trees headed by the given nodes, one for one, in order. */
  function Subtrees(nodes: seq<SentenceNode>, idxs: seq<nat>, above: set<nat>): Forest
    requires forall k :: 0 <= k < |idxs| ==> idxs[k] < |nodes| && idxs[k] !in above
    decreases Indices(|nodes|) - above, |idxs|
  {
    if idxs == [] then [] else [Subtree(nodes, idxs[0], above)] + Subtrees(nodes, idxs[1..], above)
  }

  lemma {:induction false} SubtreesIndex(nodes: seq<SentenceNode>, idxs: seq<nat>, above: set<nat>)
    requires forall k :: 0 <= k < |idxs| ==> idxs[k] < |nodes| && idxs[k] !in above
    ensures |Subtrees(nodes, idxs, above)| == |idxs|
    ensures forall k :: 0 <= k < |idxs| ==> Subtrees(nodes, idxs, above)[k] == Subtree(nodes, idxs[k], above)
    decreases |idxs|
  {
    if idxs != [] {
      var rest := idxs[1..];
      assert forall k :: 0 <= k < |rest| ==> rest[k] == idxs[k + 1];
      SubtreesIndex(nodes, rest, above);
      var tail := Subtrees(nodes, rest, above);
      var ts := [Subtree(nodes, idxs[0], above)] + tail;
      assert Subtrees(nodes, idxs, above) == ts;
      forall k | 0 <= k < |idxs|
        ensures ts[k] == Subtree(nodes, idxs[k], above)
      {
        if k > 0 {
          assert ts[k] == tail[k - 1];
        }
      }
    }
  }

  /** The parent id of node k is non-empty and no node carries it. */
  predicate Dangling(nodes: seq<SentenceNode>, k: nat)
    requires k < |nodes|
  {
    !nodes[k].IsRoot() && !(exists j :: 0 <= j < |nodes| && nodes[j].id == nodes[k].ParentKey())
  }

  /** The first dangling node at or after `from`, in sentence order. */
  function FirstDangling(nodes: seq<SentenceNode>, from: nat): (r: Option<nat>)
    requires from <= |nodes|
    decreases |nodes| - from
    ensures r.Some? ==> from <= r.value < |nodes| && Dangling(nodes, r.value)
    ensures r.Some? ==> forall j :: from <= j < r.value ==> !Dangling(nodes, j)
    ensures r.None? ==> forall j :: from <= j < |nodes| ==> !Dangling(nodes, j)
  {
    if from == |nodes| then None
    else if Dangling(nodes, from) then Some(from)
    else FirstDangling(nodes, from + 1)
  }

  /**
   * make_tree: the forest of a sentence, or the error for the first node (in
   * sentence order) whose parent id resolves to nothing.
   */
  function MakeTree(s: Sentence): (r: Result<Forest, BuildError>)
    ensures r.Failure? <==> exists k :: 0 <= k < |s.nodes| && Dangling(s.nodes, k)
    ensures r.Failure? ==> exists k :: 0 <= k < |s.nodes| && Dangling(s.nodes, k)
                             && r.error == DanglingParent(s.nodes[k].id, s.nodes[k].ParentKey())
                             && forall j :: 0 <= j < k ==> !Dangling(s.nodes, j)
  {
    match FirstDangling(s.nodes, 0)
    case Some(k) => Failure(DanglingParent(s.nodes[k].id, s.nodes[k].ParentKey()))
    case None =>
      Success(Subtrees(s.nodes, Attached(s.nodes, "", 0), {}))
  }

  /**
   * Reference description of the tree headed by node i: its label is the
   * node's label, and its children are, one for one and in sentence order,
   * the trees headed by the nodes that name i as parent.
   */
  ghost predicate Shaped(nodes: seq<SentenceNode>, i: nat, t: Tree)
    decreases t
  {
    && i < |nodes|
    && t.tag == nodes[i].Label()
    && var cs := Attached(nodes, nodes[i].id, 0);
       && |t.children| == |cs|
       && forall k :: 0 <= k < |cs| ==> Shaped(nodes, cs[k], t.children[k])
  }

  /** The description pins the tree down: at most one tree is Shaped at a node. */
  lemma {:induction false} ShapedUnique(nodes: seq<SentenceNode>, i: nat, t1: Tree, t2: Tree)
    requires Shaped(nodes, i, t1) && Shaped(nodes, i, t2)
    ensures t1 == t2
    decreases t1
  {
    var cs := Attached(nodes, nodes[i].id, 0);
    forall k | 0 <= k < |cs|
      ensures t1.children[k] == t2.children[k]
    {
      ShapedUnique(nodes, cs[k], t1.children[k], t2.children[k]);
    }
    assert t1.children == t2.children;
  }

  /**
   * A chain of indices from a root down parent links: p[0] is a root, every
   * later entry names the previous one as parent, and no index repeats.
   */
  ghost predicate IsPath(nodes: seq<SentenceNode>, p: seq<nat>) {
    && |p| > 0
    && (forall k :: 0 <= k < |p| ==> p[k] < |nodes|)
    && nodes[p[0]].IsRoot()
    && (forall k :: 0 < k < |p| ==> nodes[p[k]].ParentKey() == nodes[p[k - 1]].id)
    && (forall a, b :: 0 <= a < b < |p| ==> p[a] != p[b])
  }

  /** A node naming the end of a path as parent is not on that path. */
  lemma ChildOffPath(s: Sentence, p: seq<nat>, j: nat)
    requires WellFormed(s) && IsPath(s.nodes, p)
    requires j < |s.nodes| && s.nodes[j].ParentKey() == s.nodes[p[|p| - 1]].id
    ensures j !in p
  {
    var nodes := s.nodes;
    var last := p[|p| - 1];
    forall m | 0 <= m < |p|
      ensures p[m] != j
    {
      if m == 0 {
        assert nodes[p[m]].ParentKey() == "" != nodes[last].id;
      } else {
        assert p[m - 1] != last;
        assert nodes[p[m]].ParentKey() == nodes[p[m - 1]].id != nodes[last].id;
      }
    }
  }

  lemma ExtendPath(nodes: seq<SentenceNode>, p: seq<nat>, j: nat)
    requires IsPath(nodes, p)
    requires j < |nodes| && nodes[j].ParentKey() == nodes[p[|p| - 1]].id && j !in p
    ensures IsPath(nodes, p + [j])
  {
    var q := p + [j];
    forall k | 0 < k < |q|
      ensures nodes[q[k]].ParentKey() == nodes[q[k - 1]].id
    {
      if k < |p| {
        assert q[k] == p[k] && q[k - 1] == p[k - 1];
      }
    }
    forall a, b | 0 <= a < b < |q|
      ensures q[a] != q[b]
    {
      if b < |p| {
        assert q[a] == p[a] && q[b] == p[b];
      } else {
        assert q[a] in p;
      }
    }
  }

  /**
   * Below a root, Subtree skips nothing: the tree it builds at the end of a
   * path is exactly the Shaped one.
   */
  lemma {:induction false} SubtreeShaped(s: Sentence, p: seq<nat>, i: nat)
    requires WellFormed(s) && IsPath(s.nodes, p + [i]) && i < |s.nodes| && i !in p
    ensures Shaped(s.nodes, i, Subtree(s.nodes, i, Elems(p)))
    decreases Indices(|s.nodes|) - Elems(p)
  {
    var nodes := s.nodes;
    var q := p + [i];
    assert q[|q| - 1] == i;
    var here := Elems(p) + {i};
    assert Elems(q) == here;
    var cs := Attached(nodes, nodes[i].id, 0);
    forall x | x in cs
      ensures x !in here
    {
      ChildOffPath(s, q, x);
    }
    assert Without(cs, here) == cs;
    var t := Subtree(nodes, i, Elems(p));
    SubtreesIndex(nodes, cs, here);
    assert |t.children| == |cs|;
    assert Indices(|nodes|) - Elems(q) < Indices(|nodes|) - Elems(p) by {
      assert i in Indices(|nodes|) - Elems(p);
    }
    forall k | 0 <= k < |cs|
      ensures Shaped(nodes, cs[k], t.children[k])
    {
      ChildOffPath(s, q, cs[k]);
      ExtendPath(nodes, q, cs[k]);
      assert cs[k] !in q;
      SubtreeShaped(s, q, cs[k]);
    }
  }

  /**
   * Roots and labels: a successful build returns, one for one and in
   * sentence order, the Shaped trees of the parentless nodes.
   */
  lemma MakeTreeShape(s: Sentence)
    requires WellFormed(s) && MakeTree(s).Success?
    ensures var f := MakeTree(s).value;
            var roots := Attached(s.nodes, "", 0);
            && |f| == |roots|
            && forall k :: 0 <= k < |f| ==> Shaped(s.nodes, roots[k], f[k])
  {
    var roots := Attached(s.nodes, "", 0);
    var f := MakeTree(s).value;
    SubtreesIndex(s.nodes, roots, {});
    forall k | 0 <= k < |f|
      ensures Shaped(s.nodes, roots[k], f[k])
    {
      assert [] + [roots[k]] == [roots[k]];
      assert Elems([]) == {};
      SubtreeShaped(s, [], roots[k]);
    }
  }
}
