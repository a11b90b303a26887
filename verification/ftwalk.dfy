/**
 * The walk from the root towards a path that FT_traversePath performs, and the
 * tree edits that insertion, removal and contents replacement make at the
 * node that walk reaches. Each edit follows exactly the same route as the walk.
 */
module FTWalk {
  import opened Wrappers
  import opened Paths
  import opened Nodes

  /** n is the node the walk towards p holds before looking for level i. */
  predicate OnRoute(n: Node, p: Path, i: nat) {
    2 <= i <= |p| + 1 && n.path == p[..i - 1]
  }

  /** The loop of FT_traversePath from level i on: go to the child whose path
      is the next prefix of p while there is one. */
  function Descend(n: Node, p: Path, i: nat): (d: Node)
    requires i >= 1
    ensures d.path == n.path || (i <= |d.path| <= |p| && d.path == p[..|d.path|])
    decreases |p| + 1 - i
  {
    if i > |p| then n
    else match FindChild(n.children, p[..i])
      case None => n
      case Some(k) => Descend(n.children[k], p, i + 1)
  }

  /** Attaches c below the node the walk towards p reaches (Node_new with
      that node as parent, for the first node of a new chain). */
  function Graft(n: Node, p: Path, i: nat, c: Node): (g: Node)
    requires i >= 1
    ensures g.path == n.path && EntryOf(g) == EntryOf(n)
    decreases |p| + 1 - i
  {
    if i > |p| then n.(children := InsertChild(n.children, c))
    else match FindChild(n.children, p[..i])
      case None => n.(children := InsertChild(n.children, c))
      case Some(k) => n.(children := n.children[k := Graft(n.children[k], p, i + 1, c)])
  }

  /** Unlinks the node with path p from its parent (the detaching part of Node_free). */
  function Detach(n: Node, p: Path, i: nat): (t: Node)
    requires i >= 1
    ensures t.path == n.path && EntryOf(t) == EntryOf(n)
    decreases |p| + 1 - i
  {
    if i > |p| then n
    else match FindChild(n.children, p[..i])
      case None => n
      case Some(k) =>
        if i == |p| then n.(children := RemoveChild(n.children, k))
        else n.(children := n.children[k := Detach(n.children[k], p, i + 1)])
  }

  /** Node_setContents applied to the node the walk towards p reaches. */
  function SetContentsAt(n: Node, p: Path, i: nat, contents: Option<Blob>, size: nat): (t: Node)
    requires i >= 1
    ensures t.path == n.path && t.kind == n.kind && |t.children| == |n.children|
    decreases |p| + 1 - i
  {
    if i > |p| then n.(contents := contents, size := size)
    else match FindChild(n.children, p[..i])
      case None => n.(contents := contents, size := size)
      case Some(k) => n.(children := n.children[k := SetContentsAt(n.children[k], p, i + 1, contents, size)])
  }

  /** The nodes the insertion loop creates for levels j..last of p: directories,
      except that the node at level |p| gets the requested kind and contents. */
  function Chain(p: Path, j: nat, last: nat, kind: Kind, contents: Option<Blob>, size: nat): (c: Node)
    requires 1 <= j <= last <= |p|
    ensures c.path == p[..j]
    decreases last - j
  {
    if j == |p| then Node(p[..j], kind, contents, size, [])
    else if j == last then Node(p[..j], Dir, None, 0, [])
    else Node(p[..j], Dir, None, 0, [Chain(p, j + 1, last, kind, contents, size)])
  }

  /** The entry the insertion loop gives the node at a level of p. */
  function ChainEntry(p: Path, q: seq<string>, kind: Kind, contents: Option<Blob>, size: nat): Entry {
    if |q| == |p| then Entry(kind, contents, size) else Entry(Dir, None, 0)
  }

  // ----- the walk -----

  /** Where the walk stops: at a prefix of p that is p itself or has no child
      for the next level. */
  lemma {:induction false} DescendStops(n: Node, p: Path, i: nat)
    requires OnRoute(n, p, i)
    ensures var d := Descend(n, p, i);
      && |d.path| >= i - 1 && d.path == p[..|d.path|]
      && (d.path == p || (|d.path| < |p| && FindChild(d.children, p[..|d.path| + 1]).None?))
    decreases |p| + 1 - i
  {
    if i <= |p| {
      match FindChild(n.children, p[..i])
      case None =>
      case Some(k) =>
        DescendStops(n.children[k], p, i + 1);
    }
  }

  /** The node the walk reaches in a well-shaped subtree is held by it, with its entry. */
  lemma {:induction false} DescendHeld(n: Node, p: Path, i: nat)
    requires ShapeOk(n) && OnRoute(n, p, i)
    ensures var d := Descend(n, p, i); d.path in Abs(n) && Abs(n)[d.path] == EntryOf(d)
    decreases |p| + 1 - i
  {
    if i <= |p| {
      match FindChild(n.children, p[..i])
      case None =>
      case Some(k) =>
        DescendHeld(n.children[k], p, i + 1);
        AbsChild(n, k, Descend(n, p, i).path);
    }
  }

  /** No prefix of p longer than the node the walk reaches is held. */
  lemma {:induction false} DescendNoDeeper(n: Node, p: Path, i: nat, j: nat)
    requires ShapeOk(n) && OnRoute(n, p, i)
    requires |Descend(n, p, i).path| < j <= |p|
    ensures p[..j] !in Abs(n)
    decreases |p| + 1 - i
  {
    var q := p[..j];
    assert q[..i] == p[..i];
    match FindChild(n.children, p[..i])
    case None =>
      MissingChild(n, q);
    case Some(k) =>
      DescendNoDeeper(n.children[k], p, i + 1, j);
      if q in Abs(n) {
        BelowChild(n, k, q);
      }
  }

  /** In a well-shaped subtree the walk reaches the deepest node whose path is a
      prefix of p: it is in the subtree, and no longer prefix of p is. */
  lemma DescendDeepest(n: Node, p: Path, i: nat)
    requires ShapeOk(n) && OnRoute(n, p, i)
    ensures var d := Descend(n, p, i);
      && d.path in Abs(n) && Abs(n)[d.path] == EntryOf(d)
      && (forall j :: |d.path| < j <= |p| ==> p[..j] !in Abs(n))
  {
    DescendHeld(n, p, i);
    forall j | |Descend(n, p, i).path| < j <= |p|
      ensures p[..j] !in Abs(n)
    {
      DescendNoDeeper(n, p, i, j);
    }
  }

  /** p is held by a well-shaped subtree exactly when the walk reaches p. */
  lemma DescendFinds(n: Node, p: Path, i: nat)
    requires ShapeOk(n) && OnRoute(n, p, i)
    ensures p in Abs(n) <==> Descend(n, p, i).path == p
  {
    DescendHeld(n, p, i);
    DescendStops(n, p, i);
    var d := Descend(n, p, i);
    if d.path != p {
      assert p[..|p|] == p;
      DescendNoDeeper(n, p, i, |p|);
    }
  }

  // ----- insertion -----

  /** The walk towards p stops at p's parent: p is where a new node can go. */
  predicate ParentReached(n: Node, p: Path, i: nat) {
    OnRoute(n, p, i) && |Descend(n, p, i).path| + 1 == |p|
  }

  /** Walking towards a prefix of p that is no shorter than where the walk
      towards p stops visits the same nodes. */
  lemma {:induction false} DescendPrefix(n: Node, p: Path, i: nat, m: nat)
    requires OnRoute(n, p, i) && |Descend(n, p, i).path| < m <= |p|
    ensures OnRoute(n, p[..m], i) && Descend(n, p[..m], i) == Descend(n, p, i)
    decreases |p| + 1 - i
  {
    var q := p[..m];
    assert q[..i - 1] == p[..i - 1];
    if i <= m {
      assert q[..i] == p[..i];
      match FindChild(n.children, p[..i])
      case None =>
      case Some(k) =>
        DescendPrefix(n.children[k], p, i + 1, m);
    }
  }

  lemma {:induction false} GraftShape(n: Node, p: Path, i: nat, c: Node)
    requires ShapeOk(n) && ParentReached(n, p, i) && ShapeOk(c) && c.path == p
    ensures ShapeOk(Graft(n, p, i, c))
    decreases |p| + 1 - i
  {
    var cs := n.children;
    match FindChild(cs, p[..i])
    case None =>
      assert p[..i] == p;
      assert Graft(n, p, i, c) == n.(children := InsertChild(cs, c));
      AttachShape(n, c);
    case Some(k) =>
      var x' := Graft(cs[k], p, i + 1, c);
      assert Graft(n, p, i, c) == n.(children := cs[k := x']);
      GraftShape(cs[k], p, i + 1, c);
      ReplaceChildShape(n, k, x');
  }

  lemma {:induction false} GraftLeaves(n: Node, p: Path, i: nat, c: Node)
    requires OnRoute(n, p, i) && FilesAreLeaves(n) && FilesAreLeaves(c)
    requires Descend(n, p, i).kind == Dir
    ensures FilesAreLeaves(Graft(n, p, i, c))
    decreases |p| + 1 - i
  {
    var cs := n.children;
    if i > |p| || FindChild(cs, p[..i]).None? {
      InsertChildIndex(cs, c);
    } else {
      var k := FindChild(cs, p[..i]).value;
      GraftLeaves(cs[k], p, i + 1, c);
    }
  }

  lemma {:induction false} GraftSize(n: Node, p: Path, i: nat, c: Node)
    requires i >= 1
    ensures Size(Graft(n, p, i, c)) == Size(n) + Size(c)
    decreases |p| + 1 - i
  {
    var cs := n.children;
    if i > |p| || FindChild(cs, p[..i]).None? {
      FlattenSeqInsert(cs, c);
    } else {
      var k := FindChild(cs, p[..i]).value;
      GraftSize(cs[k], p, i + 1, c);
      FlattenSeqUpdate(cs, k, Graft(cs[k], p, i + 1, c));
    }
  }

  /** Grafting, seen at one path q: q is held afterwards exactly when it was held
      before or is a path of the new subtree; the two never overlap; entries are kept. */
  lemma {:induction false} GraftAt(n: Node, p: Path, i: nat, c: Node, q: seq<string>)
    requires ShapeOk(n) && ParentReached(n, p, i) && ShapeOk(c) && c.path == p
    ensures GrowsAt(n, Graft(n, p, i, c), c, q)
    decreases |p| + 1 - i
  {
    var cs := n.children;
    match FindChild(cs, p[..i])
    case None =>
      assert p[..i] == p;
      assert Graft(n, p, i, c) == n.(children := InsertChild(cs, c));
      AttachAt(n, c, q);
    case Some(k) =>
      GraftRoute(n, p, i, c, k);
      GraftStep(n, p, i, c, q, k);
  }

  /** One level of the graft: the walk goes on in child k. */
  lemma GraftRoute(n: Node, p: Path, i: nat, c: Node, k: nat)
    requires ShapeOk(n) && ParentReached(n, p, i) && c.path == p && i <= |p|
    requires FindChild(n.children, p[..i]) == Some(k)
    ensures k < |n.children| && ShapeOk(n.children[k]) && ParentReached(n.children[k], p, i + 1)
    ensures n.children[k].path <= c.path
    ensures Graft(n, p, i, c) == n.(children := n.children[k := Graft(n.children[k], p, i + 1, c)])
  {
  }

  lemma GraftStep(n: Node, p: Path, i: nat, c: Node, q: seq<string>, k: nat)
    requires ShapeOk(n) && ShapeOk(c) && c.path == p && i <= |p|
    requires k < |n.children| && ShapeOk(n.children[k]) && ParentReached(n.children[k], p, i + 1)
    requires n.children[k].path <= c.path
    ensures GrowsAt(n, n.(children := n.children[k := Graft(n.children[k], p, i + 1, c)]), c, q)
    decreases |p| + 1 - i, 0
  {
    var x := n.children[k];
    var x' := Graft(x, p, i + 1, c);
    GraftShape(x, p, i + 1, c);
    GraftAt(x, p, i + 1, c, q);
    ReplaceChildGrow(n, k, x', c, q);
  }

  /** Grafting adds exactly the new subtree's paths, which are all new, and
      changes no existing entry. */
  lemma GraftAbs(n: Node, p: Path, i: nat, c: Node)
    requires ShapeOk(n) && ParentReached(n, p, i) && ShapeOk(c) && c.path == p
    ensures var g := Graft(n, p, i, c);
      && (forall q :: q in Abs(g) <==> q in Abs(n) || q in Abs(c))
      && (forall q :: q in Abs(n) ==> q !in Abs(c) && Abs(g)[q] == Abs(n)[q])
      && (forall q :: q in Abs(c) ==> Abs(g)[q] == Abs(c)[q])
  {
    forall q: seq<string>
      ensures var g := Graft(n, p, i, c);
        && (q in Abs(g) <==> q in Abs(n) || q in Abs(c))
        && (q in Abs(n) ==> q !in Abs(c) && Abs(g)[q] == Abs(n)[q])
        && (q in Abs(c) ==> Abs(g)[q] == Abs(c)[q])
    {
      GraftAt(n, p, i, c, q);
    }
  }

  // ----- rollback -----

  /** Node_free on the first node of a chain grafted by the insertion loop
      restores the tree exactly: the rollback of a failed insertion. */
  lemma {:induction false} GraftThenDetach(n: Node, p: Path, i: nat, c: Node)
    requires ParentReached(n, p, i) && c.path == p
    ensures Detach(Graft(n, p, i, c), p, i) == n
    decreases |p| + 1 - i
  {
    var cs := n.children;
    match FindChild(cs, p[..i])
    case None =>
      assert p[..i] == p;
      AttachThenRemove(n, c);
    case Some(k) =>
      GraftThenDetach(cs[k], p, i + 1, c);
      FindChildFirst(cs, p[..i]);
      GraftThenDetachStep(n, p, i, c, k);
  }

  /** Removing a child just attached gives back the node. */
  lemma AttachThenRemove(n: Node, c: Node)
    requires |c.path| == |n.path| + 1
    requires forall j :: 0 <= j < |n.children| ==> n.children[j].path != c.path
    ensures Detach(n.(children := InsertChild(n.children, c)), c.path, |c.path|) == n
  {
    var cs := n.children;
    var cs' := InsertChild(cs, c);
    var k := InsertionPoint(cs, c.path);
    InsertChildIndex(cs, c);
    assert c.path[..|c.path|] == c.path;
    FindChildAt(cs', c.path, k);
    assert cs'[..k] == cs[..k] && cs'[k + 1..] == cs[k..];
    assert RemoveChild(cs', k) == cs[..k] + cs[k..] == cs;
    assert Detach(n.(children := cs'), c.path, |c.path|) == n.(children := RemoveChild(cs', k));
  }

  lemma GraftThenDetachStep(n: Node, p: Path, i: nat, c: Node, k: nat)
    requires 1 <= i < |p|
    requires FindChild(n.children, p[..i]) == Some(k)
    requires forall j :: 0 <= j < k ==> n.children[j].path != p[..i]
    requires Detach(Graft(n.children[k], p, i + 1, c), p, i + 1) == n.children[k]
    ensures Detach(Graft(n, p, i, c), p, i) == n
  {
    var cs := n.children;
    var x' := Graft(cs[k], p, i + 1, c);
    var cs' := cs[k := x'];
    assert Graft(n, p, i, c) == n.(children := cs');
    FindChildAt(cs', p[..i], k);
    assert Detach(n.(children := cs'), p, i) == n.(children := cs'[k := cs[k]]);
    assert cs'[k := cs[k]] == cs;
  }

  // ----- removal -----

  lemma {:induction false} DetachSize(n: Node, p: Path, i: nat)
    requires OnRoute(n, p, i) && i <= |p| && Descend(n, p, i).path == p
    ensures Size(Detach(n, p, i)) == Size(n) - Size(Descend(n, p, i))
    decreases |p| + 1 - i
  {
    var cs := n.children;
    match FindChild(cs, p[..i])
    case None =>
    case Some(k) =>
      if i == |p| {
        FlattenSeqRemove(cs, k);
      } else {
        DetachSize(cs[k], p, i + 1);
        FlattenSeqUpdate(cs, k, Detach(cs[k], p, i + 1));
      }
  }

  lemma {:induction false} DetachShape(n: Node, p: Path, i: nat)
    requires ShapeOk(n) && OnRoute(n, p, i) && i <= |p|
    ensures ShapeOk(Detach(n, p, i))
    decreases |p| + 1 - i
  {
    var cs := n.children;
    match FindChild(cs, p[..i])
    case None =>
    case Some(k) =>
      if i == |p| {
        assert Detach(n, p, i) == n.(children := RemoveChild(cs, k));
        RemoveChildShape(n, k);
      } else {
        assert Detach(n, p, i) == n.(children := cs[k := Detach(cs[k], p, i + 1)]);
        DetachShapeStep(n, p, i, k);
      }
  }

  lemma DetachShapeStep(n: Node, p: Path, i: nat, k: nat)
    requires ShapeOk(n) && i < |p| && k < |n.children| && OnRoute(n.children[k], p, i + 1)
    ensures ShapeOk(n.(children := n.children[k := Detach(n.children[k], p, i + 1)]))
    decreases |p| + 1 - i, 0
  {
    DetachShape(n.children[k], p, i + 1);
    ReplaceChildShape(n, k, Detach(n.children[k], p, i + 1));
  }

  lemma {:induction false} DetachLeaves(n: Node, p: Path, i: nat)
    requires FilesAreLeaves(n) && i >= 1
    ensures FilesAreLeaves(Detach(n, p, i))
    decreases |p| + 1 - i
  {
    var cs := n.children;
    if i <= |p| && FindChild(cs, p[..i]).Some? {
      var k := FindChild(cs, p[..i]).value;
      if i == |p| {
        RemoveChildIndex(cs, k);
      } else {
        DetachLeaves(cs[k], p, i + 1);
      }
    }
  }

  /** Removing p, seen at one path q: q is held afterwards exactly when it was
      held before and does not begin with p, with its entry kept. */
  lemma {:induction false} DetachAt(n: Node, p: Path, i: nat, q: seq<string>)
    requires ShapeOk(n) && OnRoute(n, p, i) && i <= |p| && p in Abs(n)
    ensures ShrinksAt(n, Detach(n, p, i), p, q)
    decreases |p| + 1 - i, 1
  {
    var k := Route(n, p);
    var x := n.children[k];
    if i == |p| {
      assert p[..|p|] == p;
      assert Detach(n, p, i) == n.(children := RemoveChild(n.children, k));
      RemoveChildAt(n, k, q);
      if q in Abs(n) && p <= q {
        BelowChild(n, k, q);
      }
      if q in Abs(x) {
        KeysUnder(x, q);
      }
    } else {
      DetachRoute(n, p, i, k);
      DetachStep(n, p, i, q, k);
    }
  }

  /** One level of the removal: the walk goes on in child k, which holds p. */
  lemma DetachRoute(n: Node, p: Path, i: nat, k: nat)
    requires ShapeOk(n) && OnRoute(n, p, i) && i < |p|
    requires k < |n.children| && n.children[k].path == p[..i] && p in Abs(n.children[k])
    requires FindChild(n.children, p[..i]) == Some(k)
    ensures ShapeOk(n.children[k]) && OnRoute(n.children[k], p, i + 1) && n.children[k].path <= p
    ensures Detach(n, p, i) == n.(children := n.children[k := Detach(n.children[k], p, i + 1)])
  {
  }

  lemma DetachStep(n: Node, p: Path, i: nat, q: seq<string>, k: nat)
    requires ShapeOk(n) && i < |p| && k < |n.children|
    requires ShapeOk(n.children[k]) && OnRoute(n.children[k], p, i + 1) && n.children[k].path <= p
    requires p in Abs(n.children[k])
    ensures ShrinksAt(n, n.(children := n.children[k := Detach(n.children[k], p, i + 1)]), p, q)
    decreases |p| + 1 - i, 0
  {
    DetachBelow(n.children[k], p, i + 1, q);
    ReplaceChildShrink(n, k, Detach(n.children[k], p, i + 1), p, q);
  }

  lemma DetachBelow(x: Node, p: Path, i: nat, q: seq<string>)
    requires ShapeOk(x) && OnRoute(x, p, i) && i <= |p| && p in Abs(x)
    ensures ShapeOk(Detach(x, p, i)) && ShrinksAt(x, Detach(x, p, i), p, q)
    decreases |p| + 1 - i, 2
  {
    DetachShape(x, p, i);
    DetachAt(x, p, i, q);
  }

  /** Removing p drops exactly the paths that begin with p and changes no
      other entry. */
  lemma DetachAbs(n: Node, p: Path, i: nat)
    requires ShapeOk(n) && OnRoute(n, p, i) && i <= |p| && p in Abs(n)
    ensures var t := Detach(n, p, i);
      && (forall q :: q in Abs(t) <==> q in Abs(n) && !(p <= q))
      && (forall q :: q in Abs(t) ==> Abs(t)[q] == Abs(n)[q])
  {
    forall q: seq<string>
      ensures var t := Detach(n, p, i);
        && (q in Abs(t) <==> q in Abs(n) && !(p <= q))
        && (q in Abs(t) ==> Abs(t)[q] == Abs(n)[q])
    {
      DetachAt(n, p, i, q);
    }
  }

  // ----- contents replacement -----

  lemma {:induction false} SetContentsShape(n: Node, p: Path, i: nat, contents: Option<Blob>, size: nat)
    requires ShapeOk(n) && i >= 1
    ensures ShapeOk(SetContentsAt(n, p, i, contents, size))
    decreases |p| + 1 - i, 1
  {
    var cs := n.children;
    if i <= |p| && FindChild(cs, p[..i]).Some? {
      var k := FindChild(cs, p[..i]).value;
      assert SetContentsAt(n, p, i, contents, size)
          == n.(children := cs[k := SetContentsAt(cs[k], p, i + 1, contents, size)]);
      SetContentsShapeStep(n, p, i, contents, size, k);
    }
  }

  lemma SetContentsShapeStep(n: Node, p: Path, i: nat, contents: Option<Blob>, size: nat, k: nat)
    requires ShapeOk(n) && 1 <= i <= |p| && k < |n.children|
    ensures ShapeOk(n.(children := n.children[k := SetContentsAt(n.children[k], p, i + 1, contents, size)]))
    decreases |p| + 1 - i, 0
  {
    assert ShapeOk(n.children[k]);
    SetContentsShape(n.children[k], p, i + 1, contents, size);
    ReplaceChildShape(n, k, SetContentsAt(n.children[k], p, i + 1, contents, size));
  }

  lemma {:induction false} SetContentsLeaves(n: Node, p: Path, i: nat, contents: Option<Blob>, size: nat)
    requires FilesAreLeaves(n) && i >= 1
    ensures FilesAreLeaves(SetContentsAt(n, p, i, contents, size))
    decreases |p| + 1 - i
  {
    var cs := n.children;
    if i <= |p| && FindChild(cs, p[..i]).Some? {
      var k := FindChild(cs, p[..i]).value;
      SetContentsLeaves(cs[k], p, i + 1, contents, size);
    }
  }

  lemma {:induction false} SetContentsSize(n: Node, p: Path, i: nat, contents: Option<Blob>, size: nat)
    requires i >= 1
    ensures Size(SetContentsAt(n, p, i, contents, size)) == Size(n)
    decreases |p| + 1 - i
  {
    var cs := n.children;
    if i <= |p| && FindChild(cs, p[..i]).Some? {
      var k := FindChild(cs, p[..i]).value;
      SetContentsSize(cs[k], p, i + 1, contents, size);
      FlattenSeqUpdate(cs, k, SetContentsAt(cs[k], p, i + 1, contents, size));
    }
  }

  /** Replacing the contents at p, seen at one path q: the same paths are held,
      and only p's entry changes, in its contents and size. */
  lemma {:induction false} SetContentsAtPath(n: Node, p: Path, i: nat, contents: Option<Blob>, size: nat, q: seq<string>)
    requires ShapeOk(n) && OnRoute(n, p, i) && p in Abs(n)
    ensures var t := SetContentsAt(n, p, i, contents, size);
      && (q in Abs(t) <==> q in Abs(n))
      && (q in Abs(t) && q != p ==> Abs(t)[q] == Abs(n)[q])
      && (q == p ==> Abs(t)[q] == Abs(n)[q].(contents := contents, size := size))
    decreases |p| + 1 - i
  {
    if p == n.path {
      assert SetContentsAt(n, p, i, contents, size) == n.(contents := contents, size := size);
      SetOwnContents(n, contents, size, q);
    } else {
      var k := Route(n, p);
      SetContentsStep(n, p, i, contents, size, q, k);
    }
  }

  /** Replacing the contents of the subtree root itself. */
  lemma SetOwnContents(n: Node, contents: Option<Blob>, size: nat, q: seq<string>)
    ensures var t := n.(contents := contents, size := size);
      && (q in Abs(t) <==> q in Abs(n))
      && (q in Abs(t) && q != n.path ==> Abs(t)[q] == Abs(n)[q])
      && (q == n.path ==> Abs(t)[q] == Abs(n)[q].(contents := contents, size := size))
  {
    var t := n.(contents := contents, size := size);
    assert t.children == n.children;
    assert Abs(t) == AbsSeq(n.children)[n.path := EntryOf(t)];
  }

  lemma SetContentsStep(n: Node, p: Path, i: nat, contents: Option<Blob>, size: nat, q: seq<string>, k: nat)
    requires ShapeOk(n) && OnRoute(n, p, i) && p in Abs(n) && p != n.path
    requires k < |n.children| && |p| > |n.path| && n.children[k].path == p[..|n.path| + 1]
    requires FindChild(n.children, p[..|n.path| + 1]) == Some(k) && p in Abs(n.children[k])
    ensures var t := SetContentsAt(n, p, i, contents, size);
      && (q in Abs(t) <==> q in Abs(n))
      && (q in Abs(t) && q != p ==> Abs(t)[q] == Abs(n)[q])
      && (q == p ==> Abs(t)[q] == Abs(n)[q].(contents := contents, size := size))
    decreases |p| + 1 - i, 0
  {
    var x := n.children[k];
    var x' := SetContentsAt(x, p, i + 1, contents, size);
    assert SetContentsAt(n, p, i, contents, size) == n.(children := n.children[k := x']);
    SetContentsShape(x, p, i + 1, contents, size);
    SetContentsAtPath(x, p, i + 1, contents, size, q);
    ReplaceChildAt(n, k, x', q);
    AbsChildIf(n, k, q);
  }

  /** Replacing the contents at p changes that entry's contents and size and
      nothing else. */
  lemma SetContentsAbs(n: Node, p: Path, i: nat, contents: Option<Blob>, size: nat)
    requires ShapeOk(n) && OnRoute(n, p, i) && p in Abs(n)
    ensures var t := SetContentsAt(n, p, i, contents, size);
      && (forall q :: q in Abs(t) <==> q in Abs(n))
      && (forall q :: q in Abs(t) && q != p ==> Abs(t)[q] == Abs(n)[q])
      && Abs(t)[p] == Abs(n)[p].(contents := contents, size := size)
  {
    forall q: seq<string>
      ensures var t := SetContentsAt(n, p, i, contents, size);
        && (q in Abs(t) <==> q in Abs(n))
        && (q in Abs(t) && q != p ==> Abs(t)[q] == Abs(n)[q])
        && (q == p ==> Abs(t)[q] == Abs(n)[q].(contents := contents, size := size))
    {
      SetContentsAtPath(n, p, i, contents, size, q);
    }
  }

  // ----- the chain -----

  /** The chain is a well-formed path of new nodes: one per level j..last, all
      directories except a final node at level |p|, which has the requested entry. */
  lemma ChainSpec(p: Path, j: nat, last: nat, kind: Kind, contents: Option<Blob>, size: nat)
    requires 1 <= j <= last <= |p|
    ensures var c := Chain(p, j, last, kind, contents, size);
      && WellFormed(c)
      && Size(c) == last - j + 1
      && (forall q :: q in Abs(c) <==> j <= |q| <= last && q == p[..|q|])
      && (forall q :: q in Abs(c) ==> Abs(c)[q] == ChainEntry(p, q, kind, contents, size))
  {
    ChainShape(p, j, last, kind, contents, size);
    ChainSize(p, j, last, kind, contents, size);
    ChainKeys(p, j, last, kind, contents, size);
    ChainEntries(p, j, last, kind, contents, size);
  }

  lemma {:induction false} ChainShape(p: Path, j: nat, last: nat, kind: Kind, contents: Option<Blob>, size: nat)
    requires 1 <= j <= last <= |p|
    ensures WellFormed(Chain(p, j, last, kind, contents, size))
    decreases last - j
  {
    if j < |p| && j < last {
      ChainShape(p, j + 1, last, kind, contents, size);
      assert p[..j] <= p[..j + 1];
    }
  }

  lemma {:induction false} ChainSize(p: Path, j: nat, last: nat, kind: Kind, contents: Option<Blob>, size: nat)
    requires 1 <= j <= last <= |p|
    ensures Size(Chain(p, j, last, kind, contents, size)) == last - j + 1
    decreases last - j
  {
    var c := Chain(p, j, last, kind, contents, size);
    if j == |p| || j == last {
      assert Flatten(c) == [c];
    } else {
      var x := Chain(p, j + 1, last, kind, contents, size);
      ChainSize(p, j + 1, last, kind, contents, size);
      FlattenSeqSingle(x);
    }
  }

  lemma {:induction false} ChainKeys(p: Path, j: nat, last: nat, kind: Kind, contents: Option<Blob>, size: nat)
    requires 1 <= j <= last <= |p|
    ensures var c := Chain(p, j, last, kind, contents, size);
      forall q :: q in Abs(c) <==> j <= |q| <= last && q == p[..|q|]
    decreases last - j
  {
    var c := Chain(p, j, last, kind, contents, size);
    if j == |p| || j == last {
      assert Abs(c) == map[p[..j] := EntryOf(c)];
    } else {
      var x := Chain(p, j + 1, last, kind, contents, size);
      ChainKeys(p, j + 1, last, kind, contents, size);
      ChainAbs(p, j, last, kind, contents, size);
      forall q | j <= |q| <= last && q == p[..|q|]
        ensures q in Abs(c)
      {
        if |q| > j {
          assert q in Abs(x);
        }
      }
    }
  }

  lemma {:induction false} ChainEntries(p: Path, j: nat, last: nat, kind: Kind, contents: Option<Blob>, size: nat)
    requires 1 <= j <= last <= |p|
    ensures var c := Chain(p, j, last, kind, contents, size);
      forall q :: q in Abs(c) ==> Abs(c)[q] == ChainEntry(p, q, kind, contents, size)
    decreases last - j
  {
    var c := Chain(p, j, last, kind, contents, size);
    if j == |p| || j == last {
      assert Abs(c) == map[p[..j] := EntryOf(c)];
    } else {
      ChainEntries(p, j + 1, last, kind, contents, size);
      ChainAbs(p, j, last, kind, contents, size);
    }
  }

  /** Above the last level, the chain holds its own path and its one child's paths. */
  lemma ChainAbs(p: Path, j: nat, last: nat, kind: Kind, contents: Option<Blob>, size: nat)
    requires 1 <= j < last <= |p|
    ensures var c := Chain(p, j, last, kind, contents, size);
      Abs(c) == Abs(Chain(p, j + 1, last, kind, contents, size))[p[..j] := Entry(Dir, None, 0)]
  {
    var x := Chain(p, j + 1, last, kind, contents, size);
    assert AbsSeq([x]) == Abs(x) by {
      assert [x][1..] == [];
    }
  }
}
