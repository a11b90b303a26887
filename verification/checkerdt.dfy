/**
 * The invariant checker of the directory tree, as its code is written. The
 * checker only reads the tree through the node getters, so it is modelled on
 * what those getters show: a node's path, its parent's path (NULL for no
 * parent), the child count Node_getNumChildren reports and the children
 * Node_getChild can return. A corrupted tree is therefore representable.
 */
module CheckerDT {
  import opened Wrappers
  import opened Paths

  /** A node as the getters show it. Node_getChild succeeds exactly for the
      indices below |children|; numChildren may claim more or fewer. */
  datatype DNode = DNode(path: Path, parent: Option<Path>, numChildren: nat, children: seq<DNode>)

  /** Node_getChild: the child at index i, or failure past the stored children. */
  function GetChild(n: DNode, i: nat): (r: Option<DNode>)
    ensures r.Some? <==> i < |n.children|
  {
    if i < |n.children| then Some(n.children[i]) else None
  }

  /** The children treeCheck walks into before the count or the stored
      children run out. */
  function Visited(n: DNode): (k: nat)
    ensures k <= n.numChildren && k <= |n.children|
    ensures k == n.numChildren || k == |n.children|
  {
    if n.numChildren <= |n.children| then n.numChildren else |n.children|
  }

  /** The nodes treeCheck reaches from n, n first, then each visited child's
      in index order. */
  function Reach(n: DNode): seq<DNode>
    decreases n, 1, 0
  {
    [n] + ReachFrom(n, 0)
  }

  function ReachFrom(n: DNode, i: nat): seq<DNode>
    decreases n, 0, Visited(n) - i
  {
    if i >= Visited(n) then [] else Reach(n.children[i]) + ReachFrom(n, i + 1)
  }

  /** P holds at every node treeCheck reaches from n. */
  predicate Every(P: DNode -> bool, n: DNode) {
    forall m :: m in Reach(n) ==> P(m)
  }

  // ----- CheckerDT_Node_isValid -----

  /** CheckerDT_Node_isValid: a NULL node is invalid; a node with a parent must
      share exactly depth-1 leading components with it. */
  function NodeIsValid(n: Option<DNode>): (ok: bool)
    ensures !n.Some? ==> !ok
  {
    match n
    case None => false
    case Some(x) =>
      x.parent.None? || SharedPrefixDepth(x.path, x.parent.value) == |x.path| - 1
  }

  /** What the parent check accepts: the parent agrees with the node on all
      but the node's last component, and does not also agree on that one. */
  lemma NodeIsValidMeaning(x: DNode)
    requires x.parent.Some?
    ensures NodeIsValid(Some(x)) <==>
              var pp, d := x.parent.value, |x.path|;
              d - 1 <= |pp| && pp[..d - 1] == x.path[..d - 1] && !(d <= |pp| && pp[..d] == x.path)
  {
  }

  /** Every genuine parent passes: a node one level below its parent and
      extending it. */
  lemma ParentAccepted(x: DNode)
    requires x.parent.Some? && |x.path| == |x.parent.value| + 1 && x.parent.value <= x.path
    ensures NodeIsValid(Some(x))
  {
    NodeIsValidMeaning(x);
  }

  // ----- CheckerDT_hasValidChildren -----

  /** What hasValidChildren accepts as written: no pair i < j of gettable
      children below the reported count with child i comparing less than
      child j. Non-increasing orders, duplicates included, pass. */
  predicate InOrderAsWritten(n: DNode) {
    forall i, j {:trigger Compare(n.children[i].path, n.children[j].path)} ::
      0 <= i < j < n.numChildren && j < |n.children| ==> Compare(n.children[i].path, n.children[j].path) >= 0
  }

  /** CheckerDT_hasValidChildren: the nested loops over index pairs, skipping
      a pair when either Node_getChild fails, failing on the first pair whose
      first child compares less than the second. */
  method HasValidChildren(n: DNode) returns (ok: bool)
    ensures ok <==> InOrderAsWritten(n)
  {
    var i := 0;
    while i < n.numChildren
      invariant i <= n.numChildren
      invariant forall a, b {:trigger Compare(n.children[a].path, n.children[b].path)} ::
                  0 <= a < i && a < b < n.numChildren && b < |n.children| ==> Compare(n.children[a].path, n.children[b].path) >= 0
    {
      var j := i + 1;
      while j < n.numChildren
        invariant i + 1 <= j <= n.numChildren
        invariant forall b {:trigger n.children[b]} ::
                    i < b < j && b < |n.children| ==> Compare(n.children[i].path, n.children[b].path) >= 0
      {
        var first := GetChild(n, i);
        if first.Some? {
          var second := GetChild(n, j);
          if second.Some? && Compare(first.value.path, second.value.path) < 0 {
            return false;
          }
        }
        j := j + 1;
      }
      i := i + 1;
    }
    return true;
  }

  // ----- CheckerDT_treeCheck -----

  /** The checks treeCheck makes at one node: the node check, the children
      check, and Node_getChild succeeding below the reported count. */
  predicate Sound(m: DNode) {
    NodeIsValid(Some(m)) && InOrderAsWritten(m) && m.numChildren <= |m.children|
  }

  /** The result treeCheck promises: TRUE for NULL, otherwise every reached
      node is sound. */
  predicate TreeOk(root: Option<DNode>) {
    root.None? || Every(Sound, root.value)
  }

  /** CheckerDT_treeCheck: TRUE for NULL, otherwise the checks of a non-NULL node. */
  method TreeCheck(n: Option<DNode>) returns (ok: bool)
    ensures ok <==> TreeOk(n)
  {
    if n.None? {
      return true;
    }
    ok := CheckSubtree(n.value);
  }

  /** The body of treeCheck for a non-NULL node: the node check, the children
      check, then the children in index order, failing when Node_getChild
      fails or a child's subtree fails. */
  method CheckSubtree(n: DNode) returns (ok: bool)
    ensures ok <==> Every(Sound, n)
    decreases n
  {
    EveryUnfold(Sound, n);
    if !NodeIsValid(Some(n)) {
      return false;
    }
    ok := HasValidChildren(n);
    if !ok {
      return false;
    }
    var i := 0;
    while i < n.numChildren
      invariant i <= n.numChildren && i <= |n.children|
      invariant forall j :: 0 <= j < i ==> Every(Sound, n.children[j])
    {
      var child := GetChild(n, i);
      if child.None? {
        return false;
      }
      ok := CheckSubtree(child.value);
      if !ok {
        return false;
      }
      i := i + 1;
    }
    return true;
  }

  /** What isValid accepts as written: an uninitialized tree must have count
      0, and the root's tree must pass treeCheck; the count is not compared
      with the reachable nodes. */
  predicate CheckerAccepts(initialized: bool, root: Option<DNode>, count: nat) {
    (initialized || count == 0) && TreeOk(root)
  }

  /** CheckerDT_isValid. */
  method IsValid(initialized: bool, root: Option<DNode>, count: nat) returns (ok: bool)
    ensures ok <==> CheckerAccepts(initialized, root, count)
    ensures !initialized && count != 0 ==> !ok
  {
    if !initialized && count != 0 {
      return false;
    }
    ok := TreeCheck(root);
  }

  // ----- reachability -----

  /** The nodes reached from child i on are those reached from the visited
      children at index i or later. */
  lemma {:induction false} ReachFromMember(n: DNode, i: nat, m: DNode)
    ensures m in ReachFrom(n, i) <==> exists j :: i <= j < Visited(n) && m in Reach(n.children[j])
    decreases Visited(n) - i
  {
    if i < Visited(n) {
      ReachFromMember(n, i + 1, m);
      if m in ReachFrom(n, i + 1) {
        var j :| i + 1 <= j < Visited(n) && m in Reach(n.children[j]);
        assert i <= j;
      }
    }
  }

  /** P at every reached node: P at n and at every node reached from a
      visited child. */
  lemma EveryUnfold(P: DNode -> bool, n: DNode)
    ensures Every(P, n) <==> P(n) && forall j :: 0 <= j < Visited(n) ==> Every(P, n.children[j])
  {
    forall m
      ensures m in Reach(n) <==> m == n || exists j :: 0 <= j < Visited(n) && m in Reach(n.children[j])
    {
      ReachFromMember(n, 0, m);
    }
    if P(n) && forall j :: 0 <= j < Visited(n) ==> Every(P, n.children[j]) {
      forall m | m in Reach(n)
        ensures P(m)
      {
        if m != n {
          var j :| 0 <= j < Visited(n) && m in Reach(n.children[j]);
          assert Every(P, n.children[j]);
        }
      }
    }
    if Every(P, n) {
      forall j | 0 <= j < Visited(n)
        ensures Every(P, n.children[j])
      {
        forall m | m in Reach(n.children[j])
          ensures P(m)
        {
          assert m in Reach(n);
        }
      }
    }
  }
}
