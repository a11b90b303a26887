/**
 * The file-tree abstract object of ft.c. Its three static variables (the
 * initialization flag, the root and the node count) become an explicit State
 * value; every public operation takes a State and returns the new State with
 * its result. Allocation failure is modelled where the insertion's rollback
 * depends on it, in the insertion loop, by the failAt parameter naming the
 * level at which creating a node fails.
 */
module FT {
  import opened Wrappers
  import opened Paths
  import opened Nodes
  import opened FTWalk

  datatype Status =
    | Success
    | InitializationError
    | BadPath
    | ConflictingPath
    | NoSuchPath
    | NotADirectory
    | NotAFile
    | AlreadyInTree
    | MemoryError

  /** bIsInitialized, oNRoot and ulCount. */
  datatype State = State(initialized: bool, root: Option<Node>, count: int)

  /** The statics before the first FT_init. */
  const Start := State(false, None, 0)

  /** A status together with the node an internal lookup produced. */
  datatype Reply = Reply(status: Status, node: Option<Node>)

  /** The new state and status of a mutating operation. */
  datatype Outcome = Outcome(state: State, status: Status)

  /** The new state and the old contents returned by FT_replaceFileContents. */
  datatype Swap = Swap(state: State, previous: Option<Blob>)

  /** FT_stat's status and the out-parameters it wrote (None: left untouched). */
  datatype StatReply = StatReply(status: Status, isFile: Option<bool>, size: Option<nat>)

  /** The representation invariant: a root exists only while initialized, it
      is a directory, never a file, and a well-formed tree at depth 1, and the
      count is its number of nodes. */
  predicate Valid(s: State) {
    match s.root
    case None => s.count == 0
    case Some(r) => s.initialized && r.kind == Dir && WellFormed(r) && |r.path| == 1 && s.count == Size(r)
  }

  /** What the tree holds: every path with its entry. */
  function Contents(s: State): map<seq<string>, Entry> {
    match s.root
    case None => map[]
    case Some(r) => Abs(r)
  }

  // ----- traversal and lookup -----

  /** FT_traversePath: from the root, as far as possible towards p. */
  function TraversePath(s: State, p: Path): (w: Reply)
    ensures w.status == Success || w.status == ConflictingPath
    ensures w.node.Some? ==> w.status == Success && |w.node.value.path| >= 1
    ensures w.node.Some? ==> var q := w.node.value.path; |q| <= |p| && q == p[..|q|]
  {
    match s.root
    case None => Reply(Success, None)
    case Some(r) =>
      if r.path != Prefix(p, 1) then Reply(ConflictingPath, None)
      else Reply(Success, Some(Descend(r, p, 2)))
  }

  /** FT_findNode: the node whose path is exactly the one given. */
  function FindNode(s: State, path: string): (r: Reply)
    ensures r.status == Success <==> r.node.Some?
    ensures r.status == Success ==> s.root.Some? && Parse(path).Some? && r.node.value.path == Parse(path).value
  {
    match Parse(path)
    case None => Reply(BadPath, None)
    case Some(p) =>
      var w := TraversePath(s, p);
      if w.status != Success then Reply(w.status, None)
      else if w.node.None? then Reply(NoSuchPath, None)
      else if w.node.value.path != p then Reply(NoSuchPath, None)
      else Reply(Success, w.node)
  }

  // ----- insertion -----

  /** FT_insertNode. The walk finds the deepest existing ancestor; the loop
      then creates one node per missing level, attached below the previous one.
      If creating the node at level failAt fails, the nodes already created
      are freed through the first of them and the error is returned. */
  function InsertNode(s: State, path: string, kind: Kind, contents: Option<Blob>, size: nat,
                      failAt: Option<nat>): (o: Outcome)
    ensures o.status != Success ==> o.state.initialized == s.initialized && o.state.count == s.count
    ensures o.status == Success ==> o.state.initialized == s.initialized && o.state.root.Some?
  {
    match Parse(path)
    case None => Outcome(s, BadPath)
    case Some(p) =>
      var w := TraversePath(s, p);
      if w.status != Success then Outcome(s, w.status)
      else if w.node.None? && s.root.Some? then Outcome(s, ConflictingPath)
      else if w.node.Some? && w.node.value.kind != Dir then Outcome(s, NotADirectory)
      else if w.node.None? && kind == File then Outcome(s, ConflictingPath)
      else
        var start := if w.node.None? then 1 else |w.node.value.path| + 1;
        if w.node.Some? && start == |p| + 1 && p == w.node.value.path then Outcome(s, AlreadyInTree)
        else if start > |p| then Outcome(s, Success)
        else BuildLevels(s, p, start, kind, contents, size, failAt)
  }

  /** The loop of FT_insertNode over levels start..|p|, and its error path. */
  function BuildLevels(s: State, p: Path, start: nat, kind: Kind, contents: Option<Blob>, size: nat,
                       failAt: Option<nat>): (o: Outcome)
    requires 1 <= start <= |p|
    requires start == 1 || s.root.Some?
    ensures o.status == Success || o.status == MemoryError
    ensures o.status == MemoryError ==> o.state.initialized == s.initialized && o.state.count == s.count
    ensures o.status == Success ==> o.state.initialized == s.initialized && o.state.root.Some?
    ensures o.status == Success ==> o.state.count == s.count + (|p| - start + 1)
  {
    if failAt.Some? && start <= failAt.value <= |p| then
      var fail := failAt.value;
      if fail == start || s.root.None? then
        Outcome(s, MemoryError)
      else
        var partial := Chain(p, start, fail - 1, kind, contents, size);
        var q := Prefix(p, start);
        var linked := Graft(s.root.value, q, 2, partial);
        Outcome(s.(root := Some(Detach(linked, q, 2))), MemoryError)
    else
      var chain := Chain(p, start, |p|, kind, contents, size);
      var root := if s.root.None? then chain else Graft(s.root.value, Prefix(p, start), 2, chain);
      Outcome(State(s.initialized, Some(root), s.count + (|p| - start + 1)), Success)
  }

  // ----- removal -----

  /** FT_rmNode: Node_free on the node found, then the count bookkeeping. */
  function RemoveNode(s: State, path: string, kind: Kind): (o: Outcome)
    ensures o.state.initialized == s.initialized
    ensures o.status != Success ==> o.state == s
  {
    var f := FindNode(s, path);
    if f.status != Success then Outcome(s, f.status)
    else if f.node.value.kind != kind then
      Outcome(s, if kind == Dir then NotADirectory else NotAFile)
    else
      var count := s.count - Size(f.node.value);
      var root := if count == 0 then None else Some(Detach(s.root.value, f.node.value.path, 2));
      Outcome(State(s.initialized, root, count), Success)
  }

  // ----- the public interface -----

  function InsertDir(s: State, path: string, failAt: Option<nat>): (o: Outcome)
    ensures !s.initialized ==> o == Outcome(s, InitializationError)
  {
    if !s.initialized then Outcome(s, InitializationError)
    else InsertNode(s, path, Dir, None, 0, failAt)
  }

  function InsertFile(s: State, path: string, contents: Option<Blob>, size: nat, failAt: Option<nat>): (o: Outcome)
    ensures !s.initialized ==> o == Outcome(s, InitializationError)
  {
    if !s.initialized then Outcome(s, InitializationError)
    else InsertNode(s, path, File, contents, size, failAt)
  }

  function ContainsDir(s: State, path: string): (b: bool)
    ensures b ==> s.initialized && s.root.Some?
  {
    if !s.initialized then false
    else
      var f := FindNode(s, path);
      f.status == Success && f.node.value.kind == Dir
  }

  function ContainsFile(s: State, path: string): (b: bool)
    ensures b ==> s.initialized && s.root.Some?
  {
    if !s.initialized then false
    else
      var f := FindNode(s, path);
      f.status == Success && f.node.value.kind == File
  }

  function RmDir(s: State, path: string): (o: Outcome)
    ensures !s.initialized ==> o == Outcome(s, InitializationError)
  {
    if !s.initialized then Outcome(s, InitializationError)
    else RemoveNode(s, path, Dir)
  }

  function RmFile(s: State, path: string): (o: Outcome)
    ensures !s.initialized ==> o == Outcome(s, InitializationError)
  {
    if !s.initialized then Outcome(s, InitializationError)
    else RemoveNode(s, path, File)
  }

  /** FT_getFileContents: the contents at path (None for NULL), whatever its kind. */
  function GetFileContents(s: State, path: string): (c: Option<Blob>)
    ensures !s.initialized ==> c.None?
  {
    if !s.initialized then None
    else
      var f := FindNode(s, path);
      if f.status != Success then None else f.node.value.contents
  }

  /** FT_replaceFileContents: sets the contents and size at path, whatever its
      kind, and returns the previous contents. */
  function ReplaceFileContents(s: State, path: string, contents: Option<Blob>, size: nat): (r: Swap)
    ensures !s.initialized ==> r == Swap(s, None)
    ensures r.state.initialized == s.initialized && r.state.count == s.count
  {
    if !s.initialized then Swap(s, None)
    else
      var f := FindNode(s, path);
      if f.status != Success then Swap(s, None)
      else
        var p := f.node.value.path;
        Swap(s.(root := Some(SetContentsAt(s.root.value, p, 2, contents, size))), f.node.value.contents)
  }

  function Stat(s: State, path: string): (r: StatReply)
    ensures !s.initialized ==> r == StatReply(InitializationError, None, None)
    ensures r.isFile.Some? <==> r.status == Success
    ensures r.size.Some? <==> r.isFile == Some(true)
  {
    if !s.initialized then StatReply(InitializationError, None, None)
    else
      var f := FindNode(s, path);
      if f.status != Success then StatReply(f.status, None, None)
      else if f.node.value.kind == File then StatReply(Success, Some(true), Some(f.node.value.size))
      else StatReply(Success, Some(false), None)
  }

  // ----- lifecycle -----

  function Init(s: State): (o: Outcome)
    ensures s.initialized ==> o == Outcome(s, InitializationError)
    ensures !s.initialized ==> o.status == Success && Valid(o.state) && o.state.initialized
    ensures !s.initialized ==> Contents(o.state) == map[]
  {
    if s.initialized then Outcome(s, InitializationError)
    else Outcome(State(true, None, 0), Success)
  }

  /** FT_destroy: frees the whole tree (Node_free reports its size) and clears the flag. */
  function Destroy(s: State): (o: Outcome)
    ensures !s.initialized ==> o == Outcome(s, InitializationError)
    ensures s.initialized ==> o.status == Success && !o.state.initialized && o.state.root.None?
  {
    if !s.initialized then Outcome(s, InitializationError)
    else if s.root.Some? then Outcome(State(false, None, s.count - Size(s.root.value)), Success)
    else Outcome(s.(initialized := false), Success)
  }
}

/**
 * What the file tree promises, stated over its contents map alone, and the
 * proofs that the operations of FT do exactly that and keep FT.Valid.
 */
module FTSpec {
  import opened Wrappers
  import opened Paths
  import opened Nodes
  import opened FTWalk
  import opened FT

  /** The length of the longest prefix of p, of length at most j, that m holds; 0 if none. */
  function HeldDepth(m: map<seq<string>, Entry>, p: seq<string>, j: nat): (d: nat)
    requires j <= |p|
    ensures d <= j
    ensures d > 0 ==> p[..d] in m
    ensures forall k :: d < k <= j ==> p[..k] !in m
    decreases j
  {
    if j == 0 then 0
    else if p[..j] in m then j
    else HeldDepth(m, p, j - 1)
  }

  /** The status FT_findNode gives, from the contents alone. */
  function FindStatus(m: map<seq<string>, Entry>, p: Path): Status {
    if p in m then Success
    else if m != map[] && p[..1] !in m then ConflictingPath
    else NoSuchPath
  }

  /** The status FT_insertNode gives when no allocation fails, from the contents alone. */
  function InsertStatus(m: map<seq<string>, Entry>, p: Path, kind: Kind): Status {
    var d := HeldDepth(m, p, |p|);
    if m != map[] && d == 0 then ConflictingPath
    else if d > 0 && m[p[..d]].kind != Dir then NotADirectory
    else if d == 0 && kind == File then ConflictingPath
    else if d == |p| then AlreadyInTree
    else Success
  }

  /** The status FT_rmNode gives, from the contents alone. */
  function RemoveStatus(m: map<seq<string>, Entry>, p: Path, kind: Kind): Status {
    if FindStatus(m, p) != Success then FindStatus(m, p)
    else if m[p].kind != kind then (if kind == Dir then NotADirectory else NotAFile)
    else Success
  }

  /** after holds what before holds, unchanged, plus every prefix of p longer
      than d, each a directory except p itself, which gets the requested entry. */
  ghost predicate AddsLevels(before: map<seq<string>, Entry>, after: map<seq<string>, Entry>, p: Path, d: nat,
                       kind: Kind, contents: Option<Blob>, size: nat) {
    && (forall q :: q in after <==> q in before || (d < |q| <= |p| && q == p[..|q|]))
    && (forall q :: q in before ==> after[q] == before[q])
    && (forall q :: q in after && q !in before ==> after[q] == ChainEntry(p, q, kind, contents, size))
  }

  /** after holds exactly what before holds at paths not beginning with p, unchanged. */
  ghost predicate DropsSubtree(before: map<seq<string>, Entry>, after: map<seq<string>, Entry>, p: Path) {
    && (forall q :: q in after <==> q in before && !(p <= q))
    && (forall q :: q in after ==> after[q] == before[q])
  }

  /** Whether the allocation failure, if any, falls on one of levels lo..hi. */
  predicate FailsWithin(failAt: Option<nat>, lo: nat, hi: nat) {
    failAt.Some? && lo <= failAt.value <= hi
  }

  // ----- traversal and lookup -----

  lemma HeldDepthIs(m: map<seq<string>, Entry>, p: seq<string>, a: nat)
    requires a <= |p| && (a > 0 ==> p[..a] in m)
    requires forall k :: a < k <= |p| ==> p[..k] !in m
    ensures HeldDepth(m, p, |p|) == a
  {
  }

  /** Every path a valid tree holds begins with the root's single component. */
  lemma UnderRoot(s: State, q: seq<string>)
    requires Valid(s) && s.root.Some? && q in Contents(s)
    ensures |q| >= 1 && q[..1] == s.root.value.path
  {
    KeysUnder(s.root.value, q);
  }

  /** FT_traversePath on a valid tree: CONFLICTING_PATH exactly when the tree
      holds no prefix of p; otherwise the node reached is the deepest prefix
      of p the tree holds, with its entry. */
  lemma TraverseDeepest(s: State, p: Path)
    requires Valid(s)
    ensures var w := TraversePath(s, p); var m := Contents(s);
      && (s.root.None? ==> w == Reply(Success, None) && HeldDepth(m, p, |p|) == 0)
      && (s.root.Some? && w.status == ConflictingPath ==> HeldDepth(m, p, |p|) == 0 && p[..1] !in m)
      && (s.root.Some? && w.status == Success ==>
            && w.node.Some? && |w.node.value.path| == HeldDepth(m, p, |p|) > 0
            && m[w.node.value.path] == EntryOf(w.node.value))
  {
    var m := Contents(s);
    if s.root.Some? {
      var r := s.root.value;
      if r.path != p[..1] {
        forall k | 0 < k <= |p|
          ensures p[..k] !in m
        {
          if p[..k] in m {
            assert p[..k][..1] == p[..1];
            UnderRoot(s, p[..k]);
          }
        }
        HeldDepthIs(m, p, 0);
      } else {
        DescendDeepest(r, p, 2);
        var d := Descend(r, p, 2);
        assert d.path == p[..|d.path|];
        HeldDepthIs(m, p, |d.path|);
      }
    }
  }

  /** FT_findNode on a valid tree: BAD_PATH for a malformed path, otherwise the
      status FindStatus gives; on success the node has the path's entry. */
  lemma FindRefines(s: State, path: string)
    requires Valid(s)
    ensures var f := FindNode(s, path); var m := Contents(s);
      && (Parse(path).None? ==> f.status == BadPath)
      && (Parse(path).Some? ==> f.status == FindStatus(m, Parse(path).value))
      && (f.status == Success ==> EntryOf(f.node.value) == m[Parse(path).value])
  {
    if Parse(path).Some? {
      var p := Parse(path).value;
      var m := Contents(s);
      TraverseDeepest(s, p);
      if s.root.Some? && s.root.value.path == p[..1] {
        DescendFinds(s.root.value, p, 2);
        assert p[..|p|] == p;
      } else if s.root.Some? {
        assert p[..|p|] == p;
        assert s.root.value.path in m;
      }
    }
  }

  // ----- insertion -----

  /** FT_insertNode's status on a valid tree: the one InsertStatus gives when
      no allocation fails, MEMORY_ERROR when one of the levels to build fails,
      and on any error the state is left as it was. */
  lemma InsertRefines(s: State, path: string, kind: Kind, contents: Option<Blob>, size: nat, failAt: Option<nat>)
    requires Valid(s) && Parse(path).Some?
    ensures var p := Parse(path).value; var m := Contents(s);
      var o := InsertNode(s, path, kind, contents, size, failAt);
      var st := InsertStatus(m, p, kind);
      && (st != Success ==> o == Outcome(s, st))
      && (st == Success && FailsWithin(failAt, HeldDepth(m, p, |p|) + 1, |p|) ==> o == Outcome(s, MemoryError))
      && (st == Success && !FailsWithin(failAt, HeldDepth(m, p, |p|) + 1, |p|) ==> o.status == Success)
  {
    var p := Parse(path).value;
    if s.root.None? {
      InsertIntoEmpty(s, path, kind, contents, size, failAt);
    } else if s.root.value.path != p[..1] {
      InsertConflicting(s, path, kind, contents, size, failAt);
    } else {
      InsertBelowRoot(s, path, kind, contents, size, failAt);
    }
  }

  lemma InsertIntoEmpty(s: State, path: string, kind: Kind, contents: Option<Blob>, size: nat, failAt: Option<nat>)
    requires Valid(s) && Parse(path).Some? && s.root.None?
    ensures var p := Parse(path).value; var m := Contents(s);
      var o := InsertNode(s, path, kind, contents, size, failAt);
      var st := InsertStatus(m, p, kind);
      && (st != Success ==> o == Outcome(s, st))
      && (st == Success && FailsWithin(failAt, HeldDepth(m, p, |p|) + 1, |p|) ==> o == Outcome(s, MemoryError))
      && (st == Success && !FailsWithin(failAt, HeldDepth(m, p, |p|) + 1, |p|) ==> o.status == Success)
  {
    TraverseDeepest(s, Parse(path).value);
  }

  lemma InsertConflicting(s: State, path: string, kind: Kind, contents: Option<Blob>, size: nat, failAt: Option<nat>)
    requires Valid(s) && Parse(path).Some? && s.root.Some? && s.root.value.path != Parse(path).value[..1]
    ensures var p := Parse(path).value; var m := Contents(s);
      var o := InsertNode(s, path, kind, contents, size, failAt);
      var st := InsertStatus(m, p, kind);
      && (st != Success ==> o == Outcome(s, st))
      && (st == Success && FailsWithin(failAt, HeldDepth(m, p, |p|) + 1, |p|) ==> o == Outcome(s, MemoryError))
      && (st == Success && !FailsWithin(failAt, HeldDepth(m, p, |p|) + 1, |p|) ==> o.status == Success)
  {
    TraverseDeepest(s, Parse(path).value);
    assert s.root.value.path in Contents(s);
  }

  lemma InsertBelowRoot(s: State, path: string, kind: Kind, contents: Option<Blob>, size: nat, failAt: Option<nat>)
    requires Valid(s) && Parse(path).Some? && s.root.Some? && s.root.value.path == Parse(path).value[..1]
    ensures var p := Parse(path).value; var m := Contents(s);
      var o := InsertNode(s, path, kind, contents, size, failAt);
      var st := InsertStatus(m, p, kind);
      && (st != Success ==> o == Outcome(s, st))
      && (st == Success && FailsWithin(failAt, HeldDepth(m, p, |p|) + 1, |p|) ==> o == Outcome(s, MemoryError))
      && (st == Success && !FailsWithin(failAt, HeldDepth(m, p, |p|) + 1, |p|) ==> o.status == Success)
  {
    var p := Parse(path).value;
    var r := s.root.value;
    var cur := Descend(r, p, 2);
    TraverseDeepest(s, p);
    assert r.path in Contents(s);
    InsertStepsBelow(s, path, kind, contents, size, failAt);
    if cur.kind == Dir && |cur.path| < |p| && FailsWithin(failAt, |cur.path| + 1, |p|) && failAt.value > |cur.path| + 1 {
      Rollback(s, p, |cur.path| + 1, kind, contents, size, failAt.value);
    }
  }

  /** Below an existing root, FT_insertNode decides on the node the walk reaches. */
  lemma InsertStepsBelow(s: State, path: string, kind: Kind, contents: Option<Blob>, size: nat, failAt: Option<nat>)
    requires Parse(path).Some? && s.root.Some? && s.root.value.path == Parse(path).value[..1]
    ensures var p := Parse(path).value; var cur := Descend(s.root.value, p, 2);
      InsertNode(s, path, kind, contents, size, failAt) ==
        if cur.kind != Dir then Outcome(s, NotADirectory)
        else if |cur.path| == |p| then Outcome(s, AlreadyInTree)
        else BuildLevels(s, p, |cur.path| + 1, kind, contents, size, failAt)
  {
    var p := Parse(path).value;
    var cur := Descend(s.root.value, p, 2);
    assert TraversePath(s, p) == Reply(Success, Some(cur));
    if |cur.path| == |p| {
      assert cur.path == p[..|p|] == p;
    } else {
      assert cur.path != p;
    }
  }

  /** The rollback of a failed insertion: linking the levels built so far and
      then freeing the first of them gives back the tree as it was. */
  lemma Rollback(s: State, p: Path, start: nat, kind: Kind, contents: Option<Blob>, size: nat, fail: nat)
    requires s.root.Some? && s.root.value.path == p[..1]
    requires |Descend(s.root.value, p, 2).path| + 1 == start < fail <= |p|
    ensures BuildLevels(s, p, start, kind, contents, size, Some(fail)) == Outcome(s, MemoryError)
  {
    var r := s.root.value;
    var q := Prefix(p, start);
    var partial := Chain(p, start, fail - 1, kind, contents, size);
    PartialLevels(s, p, start, kind, contents, size, fail);
    LevelParent(r, p, start);
    GraftThenDetach(r, q, 2, partial);
  }

  /** A failure after the first new level links the levels built so far and
      frees them again. */
  lemma PartialLevels(s: State, p: Path, start: nat, kind: Kind, contents: Option<Blob>, size: nat, fail: nat)
    requires s.root.Some? && 1 <= start < fail <= |p|
    ensures var q := Prefix(p, start);
      BuildLevels(s, p, start, kind, contents, size, Some(fail))
        == Outcome(s.(root := Some(Detach(Graft(s.root.value, q, 2, Chain(p, start, fail - 1, kind, contents, size)), q, 2))), MemoryError)
  {
  }

  /** The deepest existing ancestor of p is where the walk towards the first
      missing level of p stops. */
  lemma LevelParent(r: Node, p: Path, start: nat)
    requires r.path == p[..1] && |Descend(r, p, 2).path| + 1 == start <= |p|
    ensures ParentReached(r, Prefix(p, start), 2)
    ensures Descend(r, Prefix(p, start), 2) == Descend(r, p, 2)
  {
    DescendPrefix(r, p, 2, start);
  }

  /** Linking the levels start..|p| below the deepest existing ancestor keeps
      the tree well formed, adds those levels and nothing else, and grows the
      tree by one node per level. */
  lemma AttachLevels(r: Node, p: Path, start: nat, kind: Kind, contents: Option<Blob>, size: nat)
    requires WellFormed(r) && r.path == p[..1]
    requires 2 <= start <= |p| && |Descend(r, p, 2).path| + 1 == start && Descend(r, p, 2).kind == Dir
    ensures var g := Graft(r, Prefix(p, start), 2, Chain(p, start, |p|, kind, contents, size));
      && WellFormed(g) && Size(g) == Size(r) + (|p| - start + 1)
      && AddsLevels(Abs(r), Abs(g), p, start - 1, kind, contents, size)
  {
    var q := Prefix(p, start);
    var c := Chain(p, start, |p|, kind, contents, size);
    LevelParent(r, p, start);
    ChainSpec(p, start, |p|, kind, contents, size);
    GraftShape(r, q, 2, c);
    GraftLeaves(r, q, 2, c);
    GraftSize(r, q, 2, c);
    GraftAbs(r, q, 2, c);
  }

  /** A successful insertion into a valid, initialized tree keeps it valid,
      adds exactly the missing levels of p (directories, and p with the
      requested entry), counts one new node per level, and sets the root only
      when there was none. */
  lemma InsertGrows(s: State, path: string, kind: Kind, contents: Option<Blob>, size: nat, failAt: Option<nat>)
    requires Valid(s) && s.initialized && Parse(path).Some?
    requires InsertNode(s, path, kind, contents, size, failAt).status == Success
    ensures var p := Parse(path).value; var m := Contents(s); var d := HeldDepth(m, p, |p|);
      var o := InsertNode(s, path, kind, contents, size, failAt);
      && Valid(o.state)
      && AddsLevels(m, Contents(o.state), p, d, kind, contents, size)
      && o.state.count == s.count + (|p| - d)
      && (s.root.Some? ==> o.state.root.value.path == s.root.value.path)
      && (s.root.None? ==> o.state.root.value.path == p[..1])
  {
    var p := Parse(path).value;
    TraverseDeepest(s, p);
    if s.root.None? {
      ChainSpec(p, 1, |p|, kind, contents, size);
    } else {
      assert s.root.value.path == p[..1];
      InsertGrowsBelow(s, path, kind, contents, size, failAt);
    }
  }

  lemma InsertGrowsBelow(s: State, path: string, kind: Kind, contents: Option<Blob>, size: nat, failAt: Option<nat>)
    requires Valid(s) && s.initialized && Parse(path).Some? && s.root.Some?
    requires s.root.value.path == Parse(path).value[..1]
    requires InsertNode(s, path, kind, contents, size, failAt).status == Success
    ensures var p := Parse(path).value; var m := Contents(s); var d := HeldDepth(m, p, |p|);
      var o := InsertNode(s, path, kind, contents, size, failAt);
      && Valid(o.state)
      && AddsLevels(m, Contents(o.state), p, d, kind, contents, size)
      && o.state.count == s.count + (|p| - d)
      && o.state.root.value.path == s.root.value.path
  {
    var p := Parse(path).value;
    var r := s.root.value;
    TraverseDeepest(s, p);
    InsertStepsBelow(s, path, kind, contents, size, failAt);
    var cur := Descend(r, p, 2);
    var start := |cur.path| + 1;
    assert InsertNode(s, path, kind, contents, size, failAt) == BuildLevels(s, p, start, kind, contents, size, failAt);
    AllLevels(s, p, start, kind, contents, size, failAt);
    AttachLevels(r, p, start, kind, contents, size);
    var g := Graft(r, Prefix(p, start), 2, Chain(p, start, |p|, kind, contents, size));
    assert InsertNode(s, path, kind, contents, size, failAt).state == State(true, Some(g), s.count + (|p| - start + 1));
    assert g.kind == r.kind;
  }

  /** When no level fails, the whole chain of levels is linked below the
      deepest existing ancestor. */
  lemma AllLevels(s: State, p: Path, start: nat, kind: Kind, contents: Option<Blob>, size: nat, failAt: Option<nat>)
    requires s.root.Some? && 1 <= start <= |p|
    requires BuildLevels(s, p, start, kind, contents, size, failAt).status == Success
    ensures BuildLevels(s, p, start, kind, contents, size, failAt).state
        == State(s.initialized, Some(Graft(s.root.value, Prefix(p, start), 2, Chain(p, start, |p|, kind, contents, size))), s.count + (|p| - start + 1))
  {
  }


  // ----- removal -----

  /** FT_rmNode's status on a valid tree is the one RemoveStatus gives, and
      on any error the state is left as it was. */
  lemma RemoveRefines(s: State, path: string, kind: Kind)
    requires Valid(s) && Parse(path).Some?
    ensures var o := RemoveNode(s, path, kind);
      && o.status == RemoveStatus(Contents(s), Parse(path).value, kind)
      && (o.status != Success ==> o.state == s)
  {
    FindRefines(s, path);
  }

  /** A successful removal keeps the tree valid, drops exactly the paths
      beginning with the removed one, subtracts the removed subtree's size
      from the count, and leaves no root exactly when the count reaches 0. */
  lemma RemoveShrinks(s: State, path: string, kind: Kind)
    requires Valid(s) && Parse(path).Some?
    requires RemoveNode(s, path, kind).status == Success
    ensures var o := RemoveNode(s, path, kind); var p := Parse(path).value;
      && Valid(o.state)
      && DropsSubtree(Contents(s), Contents(o.state), p)
      && o.state.count == s.count - Size(FindNode(s, path).node.value)
      && (o.state.root.None? <==> o.state.count == 0)
  {
    var p := Parse(path).value;
    var r := s.root.value;
    FindRefines(s, path);
    assert r.path == p[..1];
    assert FindNode(s, path).node.value == Descend(r, p, 2);
    if |p| == 1 {
      RemoveRoot(s, p);
    } else {
      RemoveBelow(s, p);
    }
  }

  /** Removing the root's own path empties the tree. */
  lemma RemoveRoot(s: State, p: Path)
    requires Valid(s) && s.root.Some? && s.root.value.path == p
    ensures s.count - Size(s.root.value) == 0
    ensures DropsSubtree(Contents(s), map[], p)
  {
    forall q | q in Contents(s)
      ensures p <= q
    {
      KeysUnder(s.root.value, q);
    }
  }

  /** Removing a path below the root detaches its subtree and keeps the rest. */
  lemma RemoveBelow(s: State, p: Path)
    requires Valid(s) && s.root.Some? && s.root.value.path == p[..1] && |p| >= 2
    requires p in Contents(s)
    ensures var r := s.root.value; var t := Detach(r, p, 2);
      && s.count - Size(Descend(r, p, 2)) == Size(t) > 0
      && Valid(s.(root := Some(t), count := Size(t)))
      && DropsSubtree(Abs(r), Abs(t), p)
  {
    var r := s.root.value;
    DescendFinds(r, p, 2);
    DetachSize(r, p, 2);
    DetachShape(r, p, 2);
    DetachLeaves(r, p, 2);
    DetachAbs(r, p, 2);
  }

  // ----- the public insertion and removal -----

  /** FT_insertDir: INITIALIZATION_ERROR before FT_init, BAD_PATH for a
      malformed path, otherwise the status the contents dictate, and on
      success a valid tree with exactly the missing levels added, all directories. */
  lemma InsertDirSpec(s: State, path: string, failAt: Option<nat>)
    requires Valid(s)
    ensures var o := InsertDir(s, path, failAt); var m := Contents(s);
      && (!s.initialized ==> o == Outcome(s, InitializationError))
      && (s.initialized && Parse(path).None? ==> o == Outcome(s, BadPath))
      && (s.initialized && Parse(path).Some? ==>
            var p := Parse(path).value; var st := InsertStatus(m, p, Dir); var d := HeldDepth(m, p, |p|);
            && (st != Success ==> o == Outcome(s, st))
            && (st == Success && FailsWithin(failAt, d + 1, |p|) ==> o == Outcome(s, MemoryError))
            && (st == Success && !FailsWithin(failAt, d + 1, |p|) ==>
                  o.status == Success && Valid(o.state) && AddsLevels(m, Contents(o.state), p, d, Dir, None, 0)))
  {
    if s.initialized && Parse(path).Some? {
      InsertRefines(s, path, Dir, None, 0, failAt);
      if InsertDir(s, path, failAt).status == Success {
        InsertGrows(s, path, Dir, None, 0, failAt);
      }
    }
  }

  /** FT_insertFile: as FT_insertDir, the final level becoming a file with the
      contents and length given. */
  lemma InsertFileSpec(s: State, path: string, contents: Option<Blob>, size: nat, failAt: Option<nat>)
    requires Valid(s)
    ensures var o := InsertFile(s, path, contents, size, failAt); var m := Contents(s);
      && (!s.initialized ==> o == Outcome(s, InitializationError))
      && (s.initialized && Parse(path).None? ==> o == Outcome(s, BadPath))
      && (s.initialized && Parse(path).Some? ==>
            var p := Parse(path).value; var st := InsertStatus(m, p, File); var d := HeldDepth(m, p, |p|);
            && (st != Success ==> o == Outcome(s, st))
            && (st == Success && FailsWithin(failAt, d + 1, |p|) ==> o == Outcome(s, MemoryError))
            && (st == Success && !FailsWithin(failAt, d + 1, |p|) ==>
                  o.status == Success && Valid(o.state) && AddsLevels(m, Contents(o.state), p, d, File, contents, size)))
  {
    if s.initialized && Parse(path).Some? {
      InsertRefines(s, path, File, contents, size, failAt);
      if InsertFile(s, path, contents, size, failAt).status == Success {
        InsertGrows(s, path, File, contents, size, failAt);
      }
    }
  }

  /** FT_rmDir: INITIALIZATION_ERROR before FT_init, BAD_PATH for a
      malformed path, otherwise the status the contents dictate for a
      directory, and on success a valid tree without the removed subtree. */
  lemma RmDirSpec(s: State, path: string)
    requires Valid(s)
    ensures var o := RmDir(s, path); var m := Contents(s);
      && (!s.initialized ==> o == Outcome(s, InitializationError))
      && (s.initialized && Parse(path).None? ==> o == Outcome(s, BadPath))
      && (s.initialized && Parse(path).Some? ==>
            && o.status == RemoveStatus(m, Parse(path).value, Dir)
            && (o.status != Success ==> o.state == s)
            && (o.status == Success ==> Valid(o.state) && DropsSubtree(m, Contents(o.state), Parse(path).value)))
  {
    FindRefines(s, path);
    if s.initialized && Parse(path).Some? {
      RemoveRefines(s, path, Dir);
      if RemoveNode(s, path, Dir).status == Success {
        RemoveShrinks(s, path, Dir);
      }
    }
  }

  /** FT_rmFile: as FT_rmDir, for a path that must be a file. */
  lemma RmFileSpec(s: State, path: string)
    requires Valid(s)
    ensures var o := RmFile(s, path); var m := Contents(s);
      && (!s.initialized ==> o == Outcome(s, InitializationError))
      && (s.initialized && Parse(path).None? ==> o == Outcome(s, BadPath))
      && (s.initialized && Parse(path).Some? ==>
            && o.status == RemoveStatus(m, Parse(path).value, File)
            && (o.status != Success ==> o.state == s)
            && (o.status == Success ==> Valid(o.state) && DropsSubtree(m, Contents(o.state), Parse(path).value)))
  {
    FindRefines(s, path);
    if s.initialized && Parse(path).Some? {
      RemoveRefines(s, path, File);
      if RemoveNode(s, path, File).status == Success {
        RemoveShrinks(s, path, File);
      }
    }
  }

  // ----- queries -----

  /** FT_containsDir and FT_containsFile: true exactly when the tree is
      initialized and holds the path with that kind. */
  lemma ContainsSpec(s: State, path: string)
    requires Valid(s)
    ensures var m := Contents(s);
      && (ContainsDir(s, path) <==>
            s.initialized && Parse(path).Some? && Parse(path).value in m && m[Parse(path).value].kind == Dir)
      && (ContainsFile(s, path) <==>
            s.initialized && Parse(path).Some? && Parse(path).value in m && m[Parse(path).value].kind == File)
  {
    FindRefines(s, path);
  }

  /** FT_getFileContents: the contents recorded at the path, NULL when the
      tree is not initialized or does not hold the path. */
  lemma GetFileContentsSpec(s: State, path: string)
    requires Valid(s)
    ensures var m := Contents(s); var c := GetFileContents(s, path);
      && (s.initialized && Parse(path).Some? && Parse(path).value in m ==> c == m[Parse(path).value].contents)
      && (!s.initialized || Parse(path).None? || Parse(path).value !in m ==> c.None?)
  {
    FindRefines(s, path);
  }

  /** FT_stat: the lookup's status; on success whether the path is a file,
      and its size only when it is one. */
  lemma StatSpec(s: State, path: string)
    requires Valid(s) && s.initialized
    ensures var m := Contents(s); var r := Stat(s, path);
      && (Parse(path).None? ==> r.status == BadPath)
      && (Parse(path).Some? ==> r.status == FindStatus(m, Parse(path).value))
      && (r.status == Success ==>
            var e := m[Parse(path).value];
            r.isFile == Some(e.kind == File) && (e.kind == File ==> r.size == Some(e.size)))
  {
    FindRefines(s, path);
  }

  /** FT_replaceFileContents: when the path is held, its previous contents are
      returned and only its contents and size change; otherwise nothing happens. */
  lemma ReplaceSpec(s: State, path: string, contents: Option<Blob>, size: nat)
    requires Valid(s) && s.initialized
    ensures var m := Contents(s); var r := ReplaceFileContents(s, path, contents, size);
      && (Parse(path).None? || Parse(path).value !in m ==> r == Swap(s, None))
      && (Parse(path).Some? && Parse(path).value in m ==>
            var p := Parse(path).value; var m' := Contents(r.state);
            && r.previous == m[p].contents
            && Valid(r.state)
            && (forall q :: q in m' <==> q in m)
            && m'[p] == m[p].(contents := contents, size := size)
            && (forall q :: q in m && q != p ==> m'[q] == m[q]))
  {
    FindRefines(s, path);
    if Parse(path).Some? && Parse(path).value in Contents(s) {
      var p := Parse(path).value;
      var r := s.root.value;
      assert r.path == p[..1];
      assert FindNode(s, path).node.value == Descend(r, p, 2);
      SetContentsShape(r, p, 2, contents, size);
      SetContentsLeaves(r, p, 2, contents, size);
      SetContentsSize(r, p, 2, contents, size);
      SetContentsAbs(r, p, 2, contents, size);
    }
  }

  // ----- lifecycle -----

  /** FT_destroy on a valid, initialized tree frees every node and returns the
      statics to their state before the first FT_init. */
  lemma DestroyResets(s: State)
    requires Valid(s) && s.initialized
    ensures Destroy(s) == Outcome(Start, Success)
    ensures Init(Destroy(s).state) == Outcome(State(true, None, 0), Success)
  {
  }

  // ----- inserting a path that is already a file -----

  /** As written, inserting a path the tree already holds as a file reports
      NOT_A_DIRECTORY (the walk stops at the file itself, which fails the
      directory test) instead of the ALREADY_IN_TREE the function's comment promises. */
  lemma InsertOverFile(s: State, path: string, kind: Kind, contents: Option<Blob>, size: nat, failAt: Option<nat>)
    requires Valid(s) && Parse(path).Some?
    requires Parse(path).value in Contents(s) && Contents(s)[Parse(path).value].kind == File
    ensures InsertNode(s, path, kind, contents, size, failAt) == Outcome(s, NotADirectory)
  {
    var p := Parse(path).value;
    var m := Contents(s);
    assert p[..|p|] == p;
    HeldDepthIs(m, p, |p|);
    assert s.root.Some?;
    InsertRefines(s, path, kind, contents, size, failAt);
  }

  /** FT_insertNode as its comment describes it: any path already held,
      directory or file, gives ALREADY_IN_TREE; otherwise as written. */
  function InsertNodeIntended(s: State, path: string, kind: Kind, contents: Option<Blob>, size: nat,
                              failAt: Option<nat>): (o: Outcome)
    ensures o.status == AlreadyInTree ==> o.state == s
  {
    match Parse(path)
    case None => Outcome(s, BadPath)
    case Some(p) =>
      var w := TraversePath(s, p);
      if w.status == Success && w.node.Some? && w.node.value.path == p then Outcome(s, AlreadyInTree)
      else InsertNode(s, path, kind, contents, size, failAt)
  }

  /** The corrected insertion reports ALREADY_IN_TREE exactly when the path is
      held, and behaves as the code does for every path not held. */
  lemma InsertIntendedSpec(s: State, path: string, kind: Kind, contents: Option<Blob>, size: nat, failAt: Option<nat>)
    requires Valid(s) && Parse(path).Some?
    ensures var o := InsertNodeIntended(s, path, kind, contents, size, failAt); var p := Parse(path).value;
      && (o.status == AlreadyInTree <==> p in Contents(s))
      && (p !in Contents(s) ==> o == InsertNode(s, path, kind, contents, size, failAt))
  {
    var p := Parse(path).value;
    var m := Contents(s);
    TraverseDeepest(s, p);
    InsertRefines(s, path, kind, contents, size, failAt);
    assert p[..|p|] == p;
    if p in m {
      HeldDepthIs(m, p, |p|);
    }
  }
}
