/** Ordered labelled trees and forests, the values handed to the edit-distance engine. */
module Trees {

  datatype Tree = Node(tag: string, children: seq<Tree>)

  type Forest = seq<Tree>

  /** Number of nodes of a tree. */
  function Size(t: Tree): nat
    decreases t
  {
    1 + ForestSize(t.children)
  }

  /** Number of nodes of a forest. */
  function ForestSize(f: Forest): nat
    decreases f
  {
    if f == [] then 0 else Size(f[0]) + ForestSize(f[1..])
  }

  lemma {:induction false} ForestSizeAppend(a: Forest, b: Forest)
    ensures ForestSize(a + b) == ForestSize(a) + ForestSize(b)
    decreases a
  {
    if a == [] {
      assert a + b == b;
    } else {
      assert (a + b)[1..] == a[1..] + b;
      ForestSizeAppend(a[1..], b);
    }
  }
}
