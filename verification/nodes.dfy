/**
 * The file-tree node, given by its abstract contract (nodeFT.h is not part of
 * this model): a node owns its path, its kind, its contents (an opaque value
 * plus a length) and its children, which are kept sorted by path comparison.
 * The parent back-reference is implicit: a node's parent is the node whose
 * children hold it.
 */
module Nodes {
  import opened Wrappers
  import opened Paths

  datatype Kind = Dir | File

  /** The opaque contents of a file; None stands for a NULL pointer. */
  type Blob = seq<bv8>

  datatype Node = Node(path: Path, kind: Kind, contents: Option<Blob>, size: nat, children: seq<Node>)

  /** What the tree records about a path, apart from its children. */
  datatype Entry = Entry(kind: Kind, contents: Option<Blob>, size: nat)

  function EntryOf(n: Node): Entry {
    Entry(n.kind, n.contents, n.size)
  }

  /** Every node of the subtree, parent first, children in stored order. */
  function Flatten(n: Node): seq<Node> {
    [n] + FlattenSeq(n.children)
  }

  function FlattenSeq(cs: seq<Node>): seq<Node> {
    if |cs| == 0 then [] else Flatten(cs[0]) + FlattenSeq(cs[1..])
  }

  /** The number of nodes in the subtree: what Node_free reports having freed. */
  function Size(n: Node): nat {
    |Flatten(n)|
  }

  /** The abstract content of a subtree: each path it holds and that path's entry. */
  function Abs(n: Node): map<seq<string>, Entry> {
    AbsSeq(n.children)[n.path := EntryOf(n)]
  }

  function AbsSeq(cs: seq<Node>): map<seq<string>, Entry> {
    if |cs| == 0 then map[] else Abs(cs[0]) + AbsSeq(cs[1..])
  }

  /** Node_hasChild: the index of the child whose path compares equal to q
      (Compare gives 0 exactly for equal paths, so this is path equality). */
  function FindChild(cs: seq<Node>, q: seq<string>): (r: Option<nat>)
    ensures r.Some? ==> r.value < |cs| && cs[r.value].path == q
    ensures r.None? ==> forall j :: 0 <= j < |cs| ==> cs[j].path != q
  {
    FindChildFrom(cs, q, 0)
  }

  function FindChildFrom(cs: seq<Node>, q: seq<string>, i: nat): (r: Option<nat>)
    requires i <= |cs|
    ensures r.Some? ==> i <= r.value < |cs| && cs[r.value].path == q
    ensures r.None? ==> forall j :: i <= j < |cs| ==> cs[j].path != q
    decreases |cs| - i
  {
    if i == |cs| then None
    else if cs[i].path == q then Some(i)
    else FindChildFrom(cs, q, i + 1)
  }

  /** The lookup stops at the first child with the path asked for. */
  lemma FindChildAt(cs: seq<Node>, q: seq<string>, k: nat)
    requires k < |cs| && cs[k].path == q
    requires forall j :: 0 <= j < k ==> cs[j].path != q
    ensures FindChild(cs, q) == Some(k)
  {
    FindChildFromAt(cs, q, 0, k);
  }

  /** The index found is the first with the path asked for. */
  lemma FindChildFirst(cs: seq<Node>, q: seq<string>)
    ensures FindChild(cs, q).Some? ==> forall j :: 0 <= j < FindChild(cs, q).value ==> cs[j].path != q
  {
    FindChildFromFirst(cs, q, 0);
  }

  lemma {:induction false} FindChildFromFirst(cs: seq<Node>, q: seq<string>, i: nat)
    requires i <= |cs|
    ensures FindChildFrom(cs, q, i).Some? ==>
      forall j :: i <= j < FindChildFrom(cs, q, i).value ==> cs[j].path != q
    decreases |cs| - i
  {
    if i < |cs| && cs[i].path != q {
      FindChildFromFirst(cs, q, i + 1);
    }
  }

  lemma {:induction false} FindChildFromAt(cs: seq<Node>, q: seq<string>, i: nat, k: nat)
    requires i <= k < |cs| && cs[k].path == q
    requires forall j :: i <= j < k ==> cs[j].path != q
    ensures FindChildFrom(cs, q, i) == Some(k)
    decreases k - i
  {
    if i < k {
      FindChildFromAt(cs, q, i + 1, k);
    }
  }

  /** The position at which Node_new places a child with path q: after every
      child that compares less than q. */
  function InsertionPoint(cs: seq<Node>, q: Path): (k: nat)
    ensures k <= |cs|
    ensures forall j :: 0 <= j < k ==> Compare(cs[j].path, q) < 0
    ensures k < |cs| ==> Compare(cs[k].path, q) >= 0
  {
    if |cs| == 0 || Compare(cs[0].path, q) >= 0 then 0
    else 1 + InsertionPoint(cs[1..], q)
  }

  function InsertChild(cs: seq<Node>, c: Node): seq<Node> {
    var k := InsertionPoint(cs, c.path);
    cs[..k] + [c] + cs[k..]
  }

  function RemoveChild(cs: seq<Node>, k: nat): seq<Node>
    requires k < |cs|
  {
    cs[..k] + cs[k + 1..]
  }

  /** child is one level below parent and begins with it. */
  predicate IsChildPath(parent: Path, child: Path) {
    |child| == |parent| + 1 && parent <= child
  }

  predicate StrictlySorted(cs: seq<Node>) {
    forall i, j {:trigger Compare(cs[i].path, cs[j].path)} :: 0 <= i < j < |cs| ==> Compare(cs[i].path, cs[j].path) < 0
  }

  /** The path invariants of a subtree: each child's path extends its parent's
      by one component, and siblings are in strictly increasing order. */
  predicate ShapeOk(n: Node) {
    && StrictlySorted(n.children)
    && (forall i :: 0 <= i < |n.children| ==> IsChildPath(n.path, n.children[i].path))
    && (forall i :: 0 <= i < |n.children| ==> ShapeOk(n.children[i]))
  }

  /** A file never has children. */
  predicate FilesAreLeaves(n: Node) {
    && (n.kind == File ==> |n.children| == 0)
    && (forall i :: 0 <= i < |n.children| ==> FilesAreLeaves(n.children[i]))
  }

  predicate WellFormed(n: Node) {
    ShapeOk(n) && FilesAreLeaves(n)
  }

  /** At path q, after holds what before holds and what c holds, the two
      never both, each with its entry. */
  predicate GrowsAt(before: Node, after: Node, c: Node, q: seq<string>) {
    && (q in Abs(after) <==> q in Abs(before) || q in Abs(c))
    && (q in Abs(before) ==> q !in Abs(c) && Abs(after)[q] == Abs(before)[q])
    && (q in Abs(c) ==> Abs(after)[q] == Abs(c)[q])
  }

  /** At path q, after holds what before holds unless q begins with p, with its entry. */
  predicate ShrinksAt(before: Node, after: Node, p: seq<string>, q: seq<string>) {
    && (q in Abs(after) <==> q in Abs(before) && !(p <= q))
    && (q in Abs(after) ==> Abs(after)[q] == Abs(before)[q])
  }

  // ----- sizes -----

  lemma {:induction false} FlattenSeqAppend(a: seq<Node>, b: seq<Node>)
    ensures FlattenSeq(a + b) == FlattenSeq(a) + FlattenSeq(b)
    decreases |a|
  {
    if |a| > 0 {
      assert (a + b)[0] == a[0];
      assert (a + b)[1..] == a[1..] + b;
      FlattenSeqAppend(a[1..], b);
      assert FlattenSeq(a + b) == Flatten(a[0]) + FlattenSeq(a[1..] + b);
      assert FlattenSeq(a) == Flatten(a[0]) + FlattenSeq(a[1..]);
    } else {
      assert a + b == b;
    }
  }

  lemma FlattenSeqSingle(c: Node)
    ensures FlattenSeq([c]) == Flatten(c)
  {
    assert [c][1..] == [];
  }

  /** Replacing one child changes the subtree count by the size difference. */
  lemma FlattenSeqUpdate(cs: seq<Node>, k: nat, x: Node)
    requires k < |cs|
    ensures |FlattenSeq(cs[k := x])| == |FlattenSeq(cs)| - Size(cs[k]) + Size(x)
  {
    assert cs == cs[..k] + [cs[k]] + cs[k + 1..];
    assert cs[k := x] == cs[..k] + [x] + cs[k + 1..];
    FlattenSeqAppend(cs[..k] + [cs[k]], cs[k + 1..]);
    FlattenSeqAppend(cs[..k], [cs[k]]);
    FlattenSeqAppend(cs[..k] + [x], cs[k + 1..]);
    FlattenSeqAppend(cs[..k], [x]);
    FlattenSeqSingle(cs[k]);
    FlattenSeqSingle(x);
  }

  lemma FlattenSeqInsert(cs: seq<Node>, c: Node)
    ensures |FlattenSeq(InsertChild(cs, c))| == |FlattenSeq(cs)| + Size(c)
  {
    var k := InsertionPoint(cs, c.path);
    assert cs == cs[..k] + cs[k..];
    FlattenSeqAppend(cs[..k], cs[k..]);
    FlattenSeqAppend(cs[..k] + [c], cs[k..]);
    FlattenSeqAppend(cs[..k], [c]);
    FlattenSeqSingle(c);
  }

  lemma FlattenSeqRemove(cs: seq<Node>, k: nat)
    requires k < |cs|
    ensures |FlattenSeq(RemoveChild(cs, k))| == |FlattenSeq(cs)| - Size(cs[k])
  {
    assert cs == cs[..k] + [cs[k]] + cs[k + 1..];
    FlattenSeqAppend(cs[..k] + [cs[k]], cs[k + 1..]);
    FlattenSeqAppend(cs[..k], [cs[k]]);
    FlattenSeqAppend(cs[..k], cs[k + 1..]);
    FlattenSeqSingle(cs[k]);
  }

  lemma InsertChildIndex(cs: seq<Node>, c: Node)
    ensures var k := InsertionPoint(cs, c.path); var r := InsertChild(cs, c);
      && |r| == |cs| + 1 && r[k] == c
      && (forall j :: 0 <= j < k ==> r[j] == cs[j])
      && (forall j :: k < j < |r| ==> r[j] == cs[j - 1])
  {
  }

  lemma RemoveChildIndex(cs: seq<Node>, k: nat)
    requires k < |cs|
    ensures var r := RemoveChild(cs, k);
      && |r| == |cs| - 1
      && (forall j :: 0 <= j < k ==> r[j] == cs[j])
      && (forall j :: k <= j < |r| ==> r[j] == cs[j + 1])
  {
  }

  // ----- ordering -----

  /** Inserting a child whose path is new keeps the children strictly sorted. */
  lemma InsertChildSorted(cs: seq<Node>, c: Node)
    requires StrictlySorted(cs)
    requires forall j :: 0 <= j < |cs| ==> cs[j].path != c.path
    ensures StrictlySorted(InsertChild(cs, c))
  {
    var k := InsertionPoint(cs, c.path);
    var r := InsertChild(cs, c);
    InsertChildIndex(cs, c);
    if k < |cs| {
      CompareAntisymmetric(cs[k].path, c.path);
      assert Compare(c.path, cs[k].path) < 0;
    }
    forall i, j | 0 <= i < j < |r|
      ensures Compare(r[i].path, r[j].path) < 0
    {
      if j < k {
      } else if j == k {
      } else if i < k {
      } else if i == k {
        if j - 1 > k {
          CompareTransitive(c.path, cs[k].path, cs[j - 1].path);
        }
      } else {
      }
    }
  }

  lemma RemoveChildSorted(cs: seq<Node>, k: nat)
    requires k < |cs|
    requires StrictlySorted(cs)
    ensures StrictlySorted(RemoveChild(cs, k))
  {
    var r := RemoveChild(cs, k);
    RemoveChildIndex(cs, k);
  }

  /** Strictly sorted siblings have pairwise distinct paths. */
  lemma SortedDistinct(cs: seq<Node>, i: nat, j: nat)
    requires StrictlySorted(cs)
    requires i < |cs| && j < |cs| && i != j
    ensures cs[i].path != cs[j].path
  {
    if i < j {
      assert Compare(cs[i].path, cs[j].path) < 0;
    } else {
      assert Compare(cs[j].path, cs[i].path) < 0;
    }
  }

  // ----- the abstract map -----

  lemma {:induction false} AbsSeqMember(cs: seq<Node>, q: seq<string>)
    ensures q in AbsSeq(cs) <==> exists k :: 0 <= k < |cs| && q in Abs(cs[k])
    decreases |cs|
  {
    if |cs| > 0 {
      AbsSeqMember(cs[1..], q);
      if q in AbsSeq(cs[1..]) {
        var k :| 0 <= k < |cs[1..]| && q in Abs(cs[1..][k]);
        assert q in Abs(cs[k + 1]);
      }
      if exists k :: 0 <= k < |cs| && q in Abs(cs[k]) {
        var k :| 0 <= k < |cs| && q in Abs(cs[k]);
        if k > 0 {
          assert cs[1..][k - 1] == cs[k];
        }
      }
    }
  }

  /** A path held by exactly one child takes that child's entry. */
  lemma {:induction false} AbsSeqValue(cs: seq<Node>, k: nat, q: seq<string>)
    requires k < |cs| && q in Abs(cs[k])
    requires forall j :: 0 <= j < |cs| && j != k ==> q !in Abs(cs[j])
    ensures q in AbsSeq(cs) && AbsSeq(cs)[q] == Abs(cs[k])[q]
    decreases |cs|
  {
    if k == 0 {
      AbsSeqMember(cs[1..], q);
      assert forall j :: 0 <= j < |cs[1..]| ==> cs[1..][j] == cs[j + 1];
    } else {
      forall j | 0 <= j < |cs[1..]| && j != k - 1
        ensures q !in Abs(cs[1..][j])
      {
        assert cs[1..][j] == cs[j + 1];
      }
      AbsSeqValue(cs[1..], k - 1, q);
    }
  }

  /** Every path in a well-shaped subtree begins with the subtree's own path,
      and only the subtree root has exactly that path. */
  lemma {:induction false} KeysUnder(n: Node, q: seq<string>)
    requires ShapeOk(n)
    requires q in Abs(n)
    ensures n.path <= q
    ensures q != n.path ==> |q| > |n.path|
    decreases n
  {
    if q != n.path {
      assert q in AbsSeq(n.children);
      AbsSeqMember(n.children, q);
      var k :| 0 <= k < |n.children| && q in Abs(n.children[k]);
      KeysUnder(n.children[k], q);
      assert n.path <= n.children[k].path;
      assert n.children[k].path <= q;
      assert q[..|n.path|] == n.children[k].path[..|n.path|];
    }
  }

  lemma SortedAllDistinct(cs: seq<Node>)
    requires StrictlySorted(cs)
    ensures forall i, j :: 0 <= i < |cs| && 0 <= j < |cs| && i != j ==> cs[i].path != cs[j].path
  {
    forall i, j | 0 <= i < |cs| && 0 <= j < |cs| && i != j
      ensures cs[i].path != cs[j].path
    {
      SortedDistinct(cs, i, j);
    }
  }

  /** A path held by child k of a well-shaped node is held by no other child
      and appears in the node's map with the child's entry. */
  lemma AbsChild(n: Node, k: nat, q: seq<string>)
    requires ShapeOk(n)
    requires k < |n.children| && q in Abs(n.children[k])
    ensures |q| > |n.path| && q[..|n.path| + 1] == n.children[k].path
    ensures forall j :: 0 <= j < |n.children| && j != k ==> q !in Abs(n.children[j])
    ensures q in Abs(n) && Abs(n)[q] == Abs(n.children[k])[q]
  {
    var cs := n.children;
    KeysUnder(cs[k], q);
    assert q[..|n.path| + 1] == cs[k].path;
    SortedAllDistinct(cs);
    forall j | 0 <= j < |cs| && j != k
      ensures q !in Abs(cs[j])
    {
      if q in Abs(cs[j]) {
        KeysUnder(cs[j], q);
      }
    }
    AbsSeqValue(cs, k, q);
  }

  /** A path of a node is its own path or held by one of its children. */
  lemma AbsParts(n: Node, q: seq<string>)
    requires q in Abs(n)
    ensures q == n.path || exists k :: 0 <= k < |n.children| && q in Abs(n.children[k])
  {
    if q != n.path {
      AbsSeqMember(n.children, q);
    }
  }

  /** The route of a path through a well-shaped node: any held path other than
      the node's own lies in the child whose path is its next prefix. */
  lemma Route(n: Node, q: seq<string>) returns (k: nat)
    requires ShapeOk(n) && q in Abs(n) && q != n.path
    ensures k < |n.children| && |q| > |n.path| && n.children[k].path == q[..|n.path| + 1]
    ensures FindChild(n.children, q[..|n.path| + 1]) == Some(k)
    ensures q in Abs(n.children[k]) && Abs(n)[q] == Abs(n.children[k])[q]
  {
    var cs := n.children;
    AbsSeqMember(cs, q);
    var j :| 0 <= j < |cs| && q in Abs(cs[j]);
    AbsChild(n, j, q);
    SortedAllDistinct(cs);
    k := j;
  }

  /** A held path below child k's path is held by child k. */
  lemma BelowChild(n: Node, k: nat, q: seq<string>)
    requires ShapeOk(n) && k < |n.children| && n.children[k].path <= q && q in Abs(n)
    ensures q in Abs(n.children[k]) && Abs(n)[q] == Abs(n.children[k])[q]
  {
    var j := Route(n, q);
    assert q[..|n.path| + 1] == n.children[k].path;
    SortedAllDistinct(n.children);
  }

  /** A path below a node's own path whose next prefix is no child's path is not held. */
  lemma MissingChild(n: Node, q: seq<string>)
    requires ShapeOk(n) && |q| > |n.path|
    requires FindChild(n.children, q[..|n.path| + 1]).None?
    ensures q !in Abs(n)
  {
    if q in Abs(n) {
      var k := Route(n, q);
    }
  }

  /** AbsChild as an implication, for callers that do not know whether q is held by child k. */
  lemma AbsChildIf(n: Node, k: nat, q: seq<string>)
    requires ShapeOk(n) && k < |n.children|
    ensures q in Abs(n.children[k]) ==> q in Abs(n) && Abs(n)[q] == Abs(n.children[k])[q]
  {
    if q in Abs(n.children[k]) {
      AbsChild(n, k, q);
    }
  }

  /** BelowChild as an implication. */
  lemma BelowChildIf(n: Node, k: nat, q: seq<string>)
    requires ShapeOk(n) && k < |n.children|
    ensures q in Abs(n) && n.children[k].path <= q ==>
      q in Abs(n.children[k]) && Abs(n)[q] == Abs(n.children[k])[q]
  {
    if q in Abs(n) && n.children[k].path <= q {
      BelowChild(n, k, q);
    }
  }

  /** A path that does not begin with a well-shaped node's path is not held by it. */
  lemma NotUnder(n: Node, q: seq<string>)
    requires ShapeOk(n) && !(n.path <= q)
    ensures q !in Abs(n)
  {
    if q in Abs(n) {
      KeysUnder(n, q);
    }
  }

  // ----- editing one child -----

  lemma AttachShape(n: Node, c: Node)
    requires ShapeOk(n) && ShapeOk(c) && IsChildPath(n.path, c.path)
    requires forall j :: 0 <= j < |n.children| ==> n.children[j].path != c.path
    ensures ShapeOk(n.(children := InsertChild(n.children, c)))
  {
    var cs := n.children;
    var cs' := InsertChild(cs, c);
    var k := InsertionPoint(cs, c.path);
    InsertChildSorted(cs, c);
    InsertChildIndex(cs, c);
    forall j | 0 <= j < |cs'|
      ensures IsChildPath(n.path, cs'[j].path) && ShapeOk(cs'[j])
    {
      var src := if j < k then j else j - 1;
      assert j == k || (0 <= src < |cs| && cs'[j] == cs[src]);
    }
  }

  /** Attaching a new child adds exactly the child's paths, all of them new. */
  lemma AttachAt(n: Node, c: Node, q: seq<string>)
    requires ShapeOk(n) && ShapeOk(c) && IsChildPath(n.path, c.path)
    requires forall j :: 0 <= j < |n.children| ==> n.children[j].path != c.path
    ensures GrowsAt(n, n.(children := InsertChild(n.children, c)), c, q)
  {
    if q in Abs(c) {
      AttachNew(n, c, q);
    } else {
      AttachOld(n, c, q);
    }
  }

  lemma AttachNew(n: Node, c: Node, q: seq<string>)
    requires ShapeOk(n) && ShapeOk(c) && IsChildPath(n.path, c.path)
    requires forall j :: 0 <= j < |n.children| ==> n.children[j].path != c.path
    requires q in Abs(c)
    ensures var g := n.(children := InsertChild(n.children, c));
      q !in Abs(n) && q in Abs(g) && Abs(g)[q] == Abs(c)[q]
  {
    assert q !in Abs(n) by {
      KeysUnder(c, q);
      assert q[..|n.path| + 1] == c.path;
      MissingChild(n, q);
    }
    var g := n.(children := InsertChild(n.children, c));
    assert q in Abs(g) && Abs(g)[q] == Abs(c)[q] by {
      AttachShape(n, c);
      InsertChildIndex(n.children, c);
      AbsChild(g, InsertionPoint(n.children, c.path), q);
    }
  }

  lemma AttachOld(n: Node, c: Node, q: seq<string>)
    requires ShapeOk(n) && ShapeOk(c) && IsChildPath(n.path, c.path)
    requires forall j :: 0 <= j < |n.children| ==> n.children[j].path != c.path
    requires q !in Abs(c)
    ensures var g := n.(children := InsertChild(n.children, c));
      && (q in Abs(g) <==> q in Abs(n))
      && (q in Abs(n) ==> Abs(g)[q] == Abs(n)[q])
  {
    if q in Abs(n) {
      AttachKeeps(n, c, q);
    }
    if q in Abs(n.(children := InsertChild(n.children, c))) {
      AttachAdds(n, c, q);
    }
  }

  lemma AttachKeeps(n: Node, c: Node, q: seq<string>)
    requires ShapeOk(n) && ShapeOk(c) && IsChildPath(n.path, c.path)
    requires forall j :: 0 <= j < |n.children| ==> n.children[j].path != c.path
    requires q in Abs(n)
    ensures var g := n.(children := InsertChild(n.children, c));
      q in Abs(g) && Abs(g)[q] == Abs(n)[q]
  {
    if q != n.path {
      AttachShape(n, c);
      var cs := n.children;
      var g := n.(children := InsertChild(cs, c));
      var k := InsertionPoint(cs, c.path);
      InsertChildIndex(cs, c);
      var j := Route(n, q);
      var j' := if j < k then j else j + 1;
      assert g.children[j'] == cs[j];
      AbsChild(g, j', q);
    }
  }

  lemma AttachAdds(n: Node, c: Node, q: seq<string>)
    requires ShapeOk(n)
    requires q in Abs(n.(children := InsertChild(n.children, c)))
    ensures q in Abs(n) || q in Abs(c)
  {
    if q != n.path {
      var cs := n.children;
      var cs' := InsertChild(cs, c);
      var k := InsertionPoint(cs, c.path);
      InsertChildIndex(cs, c);
      AbsSeqMember(cs', q);
      var j' :| 0 <= j' < |cs'| && q in Abs(cs'[j']);
      var j := if j' <= k then j' else j' - 1;
      assert j' == k || (j < |cs| && cs'[j'] == cs[j]);
      if j' != k {
        AbsChild(n, j, q);
      }
    }
  }

  lemma ReplaceChildShape(n: Node, k: nat, x: Node)
    requires ShapeOk(n) && k < |n.children| && ShapeOk(x) && x.path == n.children[k].path
    ensures ShapeOk(n.(children := n.children[k := x]))
  {
  }

  /** Replacing child k by x (with the same path) swaps child k's paths for x's. */
  lemma ReplaceChildAt(n: Node, k: nat, x: Node, q: seq<string>)
    requires ShapeOk(n) && k < |n.children| && ShapeOk(x) && x.path == n.children[k].path
    ensures var g := n.(children := n.children[k := x]);
      && (q in Abs(g) <==> (q in Abs(n) && q !in Abs(n.children[k])) || q in Abs(x))
      && (q in Abs(x) ==> Abs(g)[q] == Abs(x)[q])
      && (q in Abs(n) && q !in Abs(n.children[k]) ==> Abs(g)[q] == Abs(n)[q])
  {
    ReplaceChildShape(n, k, x);
    var cs := n.children;
    var g := n.(children := cs[k := x]);
    if q in Abs(x) {
      AbsChild(g, k, q);
      if q in Abs(n) {
        KeysUnder(x, q);
        BelowChild(n, k, q);
      }
    } else if q == n.path {
      NotUnder(cs[k], q);
    } else {
      if q in Abs(n) {
        var j := Route(n, q);
        if j != k {
          AbsChild(g, j, q);
        }
      }
      if q in Abs(g) {
        var j := Route(g, q);
        if j != k {
          AbsChild(n, j, q);
        }
      }
    }
  }

  /** Replacing child k by x, where x holds child k's paths plus those of a
      subtree c below child k, makes n hold its own paths plus c's. */
  lemma ReplaceChildGrow(n: Node, k: nat, x: Node, c: Node, q: seq<string>)
    requires ShapeOk(n) && k < |n.children| && ShapeOk(x) && x.path == n.children[k].path
    requires ShapeOk(c) && n.children[k].path <= c.path
    requires GrowsAt(n.children[k], x, c, q)
    ensures GrowsAt(n, n.(children := n.children[k := x]), c, q)
  {
    ReplaceChildAt(n, k, x, q);
    AbsChildIf(n, k, q);
    if q in Abs(c) {
      KeysUnder(c, q);
    }
    BelowChildIf(n, k, q);
  }

  /** Replacing child k by x, where x holds child k's paths except those
      beginning with p (a path below child k), drops exactly n's paths
      beginning with p. */
  lemma ReplaceChildShrink(n: Node, k: nat, x: Node, p: seq<string>, q: seq<string>)
    requires ShapeOk(n) && k < |n.children| && ShapeOk(x) && x.path == n.children[k].path
    requires n.children[k].path <= p
    requires ShrinksAt(n.children[k], x, p, q)
    ensures ShrinksAt(n, n.(children := n.children[k := x]), p, q)
  {
    ReplaceChildAt(n, k, x, q);
    AbsChildIf(n, k, q);
    BelowChildIf(n, k, q);
  }

  lemma RemoveChildShape(n: Node, k: nat)
    requires ShapeOk(n) && k < |n.children|
    ensures ShapeOk(n.(children := RemoveChild(n.children, k)))
  {
    var cs := n.children;
    RemoveChildSorted(cs, k);
    RemoveChildIndex(cs, k);
  }

  /** Removing child k drops exactly child k's paths. */
  lemma RemoveChildAt(n: Node, k: nat, q: seq<string>)
    requires ShapeOk(n) && k < |n.children|
    ensures var g := n.(children := RemoveChild(n.children, k));
      && (q in Abs(g) <==> q in Abs(n) && q !in Abs(n.children[k]))
      && (q in Abs(g) ==> Abs(g)[q] == Abs(n)[q])
  {
    var g := n.(children := RemoveChild(n.children, k));
    if q == n.path {
      NotUnder(n.children[k], q);
    } else {
      if q in Abs(g) {
        RemoveChildKept(n, k, q);
      }
      if q in Abs(n) && q !in Abs(n.children[k]) {
        RemoveChildLost(n, k, q);
      }
    }
  }

  /** A path below n that survives the removal of child k was in another child. */
  lemma RemoveChildKept(n: Node, k: nat, q: seq<string>)
    requires ShapeOk(n) && k < |n.children| && q != n.path
    requires q in Abs(n.(children := RemoveChild(n.children, k)))
    ensures q in Abs(n) && q !in Abs(n.children[k])
    ensures Abs(n.(children := RemoveChild(n.children, k)))[q] == Abs(n)[q]
  {
    var cs := n.children;
    var rest := RemoveChild(cs, k);
    RemoveChildIndex(cs, k);
    AbsSeqMember(rest, q);
    var j :| 0 <= j < |rest| && q in Abs(rest[j]);
    var jn := if j < k then j else j + 1;
    assert rest[j] == cs[jn];
    AbsChild(n, jn, q);
    forall i | 0 <= i < |rest| && i != j
      ensures q !in Abs(rest[i])
    {
      var inn := if i < k then i else i + 1;
      assert rest[i] == cs[inn];
    }
    AbsSeqValue(rest, j, q);
  }

  /** A path below n outside child k survives the removal of child k. */
  lemma RemoveChildLost(n: Node, k: nat, q: seq<string>)
    requires ShapeOk(n) && k < |n.children| && q != n.path
    requires q in Abs(n) && q !in Abs(n.children[k])
    ensures q in Abs(n.(children := RemoveChild(n.children, k)))
  {
    var cs := n.children;
    var rest := RemoveChild(cs, k);
    RemoveChildIndex(cs, k);
    var j := Route(n, q);
    var j' := if j < k then j else j - 1;
    assert rest[j'] == cs[j];
    AbsSeqMember(rest, q);
  }
}
