/**
 * The checker its comments describe, and where the code as written departs
 * from it: children must be in strictly increasing order (the code rejects
 * increasing pairs and accepts duplicates), a parent must be the node's path
 * without its last component (the code accepts any node sharing that many
 * leading components), every child must point back to its parent (a check
 * the code leaves commented out), and the count must be the number of
 * reachable nodes (the code never compares it).
 */
module CheckerIntended {
  import opened Wrappers
  import opened Paths
  import opened Nodes
  import opened FT
  import opened CheckerDT

  /** The getters' view of a file-tree node whose parent has path parent. */
  function View(n: Node, parent: Option<Path>): (v: DNode)
    ensures v.path == n.path && v.parent == parent
    ensures v.numChildren == |n.children| == |v.children|
    ensures forall i :: 0 <= i < |n.children| ==> v.children[i] == View(n.children[i], Some(n.path))
    decreases n
  {
    DNode(n.path, parent, |n.children|,
          seq(|n.children|, i requires 0 <= i < |n.children| => View(n.children[i], Some(n.path))))
  }

  /** The parent's path is the node's path without its last component. */
  predicate ParentIsPrefix(m: DNode) {
    m.parent.Some? ==> IsChildPath(m.parent.value, m.path)
  }

  /** Children below the reported count in strictly increasing order. */
  predicate StrictlyOrdered(m: DNode) {
    forall i, j {:trigger Compare(m.children[i].path, m.children[j].path)} ::
      0 <= i < j < m.numChildren && j < |m.children| ==> Compare(m.children[i].path, m.children[j].path) < 0
  }

  /** Each visited child names this node as its parent. */
  predicate ChildrenPointBack(m: DNode) {
    forall i :: 0 <= i < Visited(m) ==> m.children[i].parent == Some(m.path)
  }

  predicate SoundIntended(m: DNode) {
    ParentIsPrefix(m) && StrictlyOrdered(m) && ChildrenPointBack(m) && m.numChildren <= |m.children|
  }

  /** The number of nodes reachable from the root. */
  function Reachable(root: Option<DNode>): nat {
    if root.None? then 0 else |Reach(root.value)|
  }

  /** The corrected isValid: the uninitialized-count check, every reached node
      sound as intended, and the count equal to the reachable nodes. */
  predicate IntendedAccepts(initialized: bool, root: Option<DNode>, count: nat) {
    && (initialized || count == 0)
    && (root.None? || Every(SoundIntended, root.value))
    && count == Reachable(root)
  }

  // ----- the corrected checker against the file tree's own invariants -----

  /** On the view of a file-tree node, the corrected checks hold exactly when
      the subtree has its path shape and the node sits one level below the
      parent it names. */
  lemma {:induction false} IntendedExact(n: Node, parent: Option<Path>)
    ensures Every(SoundIntended, View(n, parent)) <==>
              ShapeOk(n) && (parent.Some? ==> IsChildPath(parent.value, n.path))
    decreases n
  {
    var v := View(n, parent);
    EveryUnfold(SoundIntended, v);
    forall i | 0 <= i < |n.children|
      ensures Every(SoundIntended, v.children[i]) <==>
                ShapeOk(n.children[i]) && IsChildPath(n.path, n.children[i].path)
    {
      IntendedExact(n.children[i], Some(n.path));
    }
    assert StrictlyOrdered(v) <==> StrictlySorted(n.children) by {
      if StrictlyOrdered(v) {
        forall i, j | 0 <= i < j < |n.children|
          ensures Compare(n.children[i].path, n.children[j].path) < 0
        {
          assert Compare(v.children[i].path, v.children[j].path) < 0;
        }
      }
      if StrictlySorted(n.children) {
        forall i, j | 0 <= i < j < v.numChildren && j < |v.children|
          ensures Compare(v.children[i].path, v.children[j].path) < 0
        {
          assert Compare(n.children[i].path, n.children[j].path) < 0;
        }
      }
    }
  }

  /** The node count of a view is the subtree's size. */
  lemma {:induction false} ReachSize(n: Node, parent: Option<Path>)
    ensures |Reach(View(n, parent))| == Size(n)
    decreases n, 1
  {
    ReachFromSize(n, parent, 0);
    assert n.children[0..] == n.children;
  }

  lemma {:induction false} ReachFromSize(n: Node, parent: Option<Path>, i: nat)
    requires i <= |n.children|
    ensures |ReachFrom(View(n, parent), i)| == |FlattenSeq(n.children[i..])|
    decreases n, 0, |n.children| - i
  {
    var v := View(n, parent);
    if i < |n.children| {
      ReachSize(n.children[i], Some(n.path));
      ReachFromSize(n, parent, i + 1);
      assert n.children[i..][1..] == n.children[i + 1..];
    }
  }

  /** The getters' view of a file-tree state. */
  function RootView(s: State): Option<DNode> {
    if s.root.None? then None else Some(View(s.root.value, None))
  }

  /** The corrected checker accepts every valid file-tree state. */
  lemma ValidAccepted(s: State)
    requires Valid(s)
    ensures IntendedAccepts(s.initialized, RootView(s), s.count)
  {
    if s.root.Some? {
      IntendedExact(s.root.value, None);
      ReachSize(s.root.value, None);
    }
  }

  // ----- where the code as written departs -----

  /** The as-written children check rejects every node with two properly
      ordered children, so treeCheck rejects any well-shaped tree in which
      some reached node has two or more children; the corrected check
      accepts them. */
  lemma OrderReversed(n: Node, parent: Option<Path>)
    requires ShapeOk(n)
    requires parent.Some? ==> IsChildPath(parent.value, n.path)
    requires exists m :: m in Reach(View(n, parent)) && m.numChildren >= 2
    ensures !Every(Sound, View(n, parent))
    ensures Every(SoundIntended, View(n, parent))
  {
    var v := View(n, parent);
    IntendedExact(n, parent);
    var m :| m in Reach(v) && m.numChildren >= 2;
    assert SoundIntended(m);
    assert Compare(m.children[0].path, m.children[1].path) < 0;
    assert !Sound(m);
  }

  /** Two children with the same path pass the as-written check. */
  lemma DuplicatesAccepted()
    ensures var c := DNode(["a", "b"], Some(["a"]), 0, []);
            var root := DNode(["a"], None, 2, [c, c]);
            InOrderAsWritten(root) && !StrictlyOrdered(root)
  {
    var c := DNode(["a", "b"], Some(["a"]), 0, []);
    var root := DNode(["a"], None, 2, [c, c]);
    assert Compare(root.children[0].path, root.children[1].path) == 0;
  }

  /** A node whose parent shares its depth-1 leading components without being
      its prefix passes the as-written node check: a/b under a/c. */
  lemma NonPrefixParent()
    ensures var x := DNode(["a", "b"], Some(["a", "c"]), 0, []);
            NodeIsValid(Some(x)) && !ParentIsPrefix(x)
  {
    var x := DNode(["a", "b"], Some(["a", "c"]), 0, []);
    assert SharedPrefixDepth(x.path, x.parent.value) == 1 by {
      assert x.path[1] != x.parent.value[1];
    }
    assert x.parent.value != x.path[..1];
  }

  /** An initialized single-node tree with any count passes the as-written
      isValid; the corrected one demands a count of 1. */
  lemma CountIgnored(count: nat)
    ensures var root := DNode(["a"], None, 0, []);
            CheckerAccepts(true, Some(root), count) &&
            (IntendedAccepts(true, Some(root), count) <==> count == 1)
  {
    var root := DNode(["a"], None, 0, []);
    EveryUnfold(Sound, root);
    EveryUnfold(SoundIntended, root);
    assert Reach(root) == [root];
  }
}
