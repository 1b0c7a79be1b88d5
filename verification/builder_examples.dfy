/** Worked instances of the forest builder on small sentences. */
module BuilderExamples {
  import opened Wrappers
  import opened Sentences
  import opened Trees
  import opened TreeBuilder

  /** "dog" names "bark" as parent before "bark" appears; artificial "E3" hangs under "bark" too. */
  function Barking(): Sentence {
    Sentence([SentenceNode("2", "dog", Some("1")), SentenceNode("1", "bark", None), SentenceNode("E3", "", Some("1"))])
  }

  lemma BarkingLinks()
    ensures WellFormed(Barking())
    ensures Attached(Barking().nodes, "", 0) == [1]
    ensures Attached(Barking().nodes, "1", 0) == [0, 2]
  {
    var s := Barking();
    assert s.nodes[0].ParentKey() == "1" && s.nodes[1].ParentKey() == "" && s.nodes[2].ParentKey() == "1";
  }

  lemma BarkingShape()
    ensures WellFormed(Barking())
    ensures Attached(Barking().nodes, "", 0) == [1]
    ensures Shaped(Barking().nodes, 1, Node("bark", [Node("dog", []), Node("E3", [])]))
  {
    var s := Barking();
    BarkingLinks();
    assert Attached(s.nodes, "2", 0) == [];
    assert Attached(s.nodes, "E3", 0) == [];
  }

  /** A node attached to a parent listed after it still lands in that parent's children, in order. */
  lemma ChildBeforeParent()
    ensures WellFormed(Barking())
    ensures MakeTree(Barking()) == Success([Node("bark", [Node("dog", []), Node("E3", [])])])
  {
    var s := Barking();
    BarkingShape();
    assert s.nodes[0].ParentKey() == "1" && s.nodes[1].ParentKey() == "" && s.nodes[2].ParentKey() == "1";
    assert !Dangling(s.nodes, 0) && !Dangling(s.nodes, 2) by {
      assert s.nodes[1].id == "1";
    }
    MakeTreeShape(s);
    var f := MakeTree(s).value;
    ShapedUnique(s.nodes, 1, f[0], Node("bark", [Node("dog", []), Node("E3", [])]));
    assert f == [f[0]];
  }

  /** A parent id that names no node fails the build instead of dropping the node. */
  lemma UnknownParentFails()
    ensures var s := Sentence([SentenceNode("1", "bark", None), SentenceNode("2", "dog", Some("Z99"))]);
            WellFormed(s) && MakeTree(s) == Failure(DanglingParent("2", "Z99"))
  {
  }

  /** Two nodes naming each other as parent, beside one root. */
  function Looping(): Sentence {
    Sentence([SentenceNode("1", "a", Some("2")), SentenceNode("2", "b", Some("1")), SentenceNode("3", "c", None)])
  }

  lemma LoopingShape()
    ensures WellFormed(Looping())
    ensures Attached(Looping().nodes, "", 0) == [2]
    ensures Shaped(Looping().nodes, 2, Node("c", []))
  {
    var s := Looping();
    assert s.nodes[0].ParentKey() == "2" && s.nodes[1].ParentKey() == "1" && s.nodes[2].ParentKey() == "";
    assert Attached(s.nodes, "3", 0) == [];
  }

  /** The nodes on a parent cycle are unreachable from every root and do not appear. */
  lemma CycleIsUnreachable()
    ensures WellFormed(Looping())
    ensures MakeTree(Looping()) == Success([Node("c", [])])
  {
    var s := Looping();
    LoopingShape();
    assert s.nodes[0].ParentKey() == "2" && s.nodes[1].ParentKey() == "1";
    assert !Dangling(s.nodes, 0) && !Dangling(s.nodes, 1) by {
      assert s.nodes[1].id == "2" && s.nodes[0].id == "1";
    }
    MakeTreeShape(s);
    var f := MakeTree(s).value;
    ShapedUnique(s.nodes, 2, f[0], Node("c", []));
    assert f == [f[0]];
  }
}
