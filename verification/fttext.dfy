/**
 * FT_toString: the tree listed in the order FT_preOrderTraversal fills its
 * array, one rendered path per line, each followed by a newline.
 */
module FTText {
  import opened Wrappers
  import opened Paths
  import opened Nodes
  import opened FT

  /** The order FT_preOrderTraversal produces: the node, then its file
      children in stored order, then the listing of each directory child in
      stored order. */
  function PreOrder(n: Node): seq<Node>
    decreases n, 0
  {
    [n] + FileChildren(n.children) + DirListings(n.children)
  }

  /** The file children, in stored order (the first loop over the children). */
  function FileChildren(cs: seq<Node>): seq<Node> {
    if |cs| == 0 then []
    else FilePart(cs[0]) + FileChildren(cs[1..])
  }

  function FilePart(c: Node): seq<Node> {
    if c.kind == File then [c] else []
  }

  /** The listings of the directory children, in stored order (the second loop). */
  function DirListings(cs: seq<Node>): seq<Node>
    decreases cs, 0
  {
    if |cs| == 0 then []
    else DirPart(cs[0]) + DirListings(cs[1..])
  }

  function DirPart(c: Node): seq<Node>
    decreases c, 1
  {
    if c.kind == Dir then PreOrder(c) else []
  }

  /** The nodes FT_toString lists: none when there is no root. */
  function Listing(s: State): seq<Node> {
    if s.root.None? then [] else PreOrder(s.root.value)
  }

  /** The rendered path of each node, each followed by a newline. */
  function Text(ns: seq<Node>): string {
    if |ns| == 0 then "" else Render(ns[0].path) + "\n" + Text(ns[1..])
  }

  /** What FT_strlenAccumulate adds up over the array: each path's length plus one. */
  function LineLengths(ns: seq<Node>): nat {
    if |ns| == 0 then 0 else |Render(ns[0].path)| + 1 + LineLengths(ns[1..])
  }

  /** FT_toString's result: NULL when not initialized, otherwise the listing's text. */
  function ToString(s: State): (r: Option<string>)
    ensures r.None? <==> !s.initialized
  {
    if !s.initialized then None else Some(Text(Listing(s)))
  }

  // ----- the traversal -----

  /** FT_preOrderTraversal, appending to the nodes already in d: it writes the
      node, then runs over the children twice, first taking the files, then
      expanding the directories. */
  method PreOrderTraversal(n: Node, d: seq<Node>) returns (r: seq<Node>)
    ensures r == d + PreOrder(n)
    decreases n, 1
  {
    r := AppendFiles(n.children, d + [n]);
    r := AppendDirs(n.children, r);
  }

  /** The first loop over the children: each file child, in stored order. */
  method AppendFiles(cs: seq<Node>, d: seq<Node>) returns (r: seq<Node>)
    ensures r == d + FileChildren(cs)
  {
    r := d;
    var c := 0;
    while c < |cs|
      invariant 0 <= c <= |cs|
      invariant r == d + FileChildren(cs[..c])
    {
      FileChildrenSnoc(cs, c);
      if cs[c].kind == File {
        r := r + [cs[c]];
      }
      c := c + 1;
    }
    assert cs[..|cs|] == cs;
  }

  /** The second loop over the children: the traversal of each directory
      child, in stored order. */
  method AppendDirs(cs: seq<Node>, d: seq<Node>) returns (r: seq<Node>)
    ensures r == d + DirListings(cs)
    decreases cs, 0
  {
    r := d;
    var c := 0;
    while c < |cs|
      invariant 0 <= c <= |cs|
      invariant r == d + DirListings(cs[..c])
    {
      DirListingsSnoc(cs, c);
      if cs[c].kind == Dir {
        r := PreOrderTraversal(cs[c], r);
      }
      assert r == d + DirListings(cs[..c]) + DirPart(cs[c]);
      c := c + 1;
    }
    assert cs[..|cs|] == cs;
  }

  lemma {:induction false} FileChildrenSnoc(cs: seq<Node>, c: nat)
    requires c < |cs|
    ensures FileChildren(cs[..c + 1]) == FileChildren(cs[..c]) + FilePart(cs[c])
  {
    if c > 0 {
      FileChildrenSnoc(cs[1..], c - 1);
      assert cs[..c + 1][1..] == cs[1..][..c];
      assert cs[..c][1..] == cs[1..][..c - 1];
    }
  }

  lemma {:induction false} DirListingsSnoc(cs: seq<Node>, c: nat)
    requires c < |cs|
    ensures DirListings(cs[..c + 1]) == DirListings(cs[..c]) + DirPart(cs[c])
  {
    if c > 0 {
      DirListingsSnoc(cs[1..], c - 1);
      assert cs[..c + 1][1..] == cs[1..][..c];
      assert cs[..c][1..] == cs[1..][..c - 1];
    }
  }

  /** FT_toString: the traversal into an array, the length accumulation that
      sizes the buffer, then the concatenation. Returns the string and the
      buffer size it allocated. */
  method BuildString(s: State) returns (r: Option<string>, bufferSize: nat)
    ensures r == ToString(s)
    ensures r.Some? ==> bufferSize == |r.value| + 1
  {
    if !s.initialized {
      return None, 0;
    }
    var nodes: seq<Node> := [];
    if s.root.Some? {
      nodes := PreOrderTraversal(s.root.value, []);
      assert nodes == PreOrder(s.root.value);
    }
    bufferSize := MeasureAll(nodes);
    var out := ConcatAll(nodes);
    TextLength(nodes);
    r := Some(out);
  }

  /** DynArray_map with FT_strlenAccumulate over the array, starting from 1
      for the terminating NUL. */
  method MeasureAll(nodes: seq<Node>) returns (total: nat)
    ensures total == 1 + LineLengths(nodes)
  {
    total := 1;
    var k := 0;
    while k < |nodes|
      invariant 0 <= k <= |nodes|
      invariant total == 1 + LineLengths(nodes[..k])
    {
      LineLengthsSnoc(nodes, k);
      total := total + |Render(nodes[k].path)| + 1;
      k := k + 1;
    }
    assert nodes[..|nodes|] == nodes;
  }

  /** DynArray_map with FT_strcatAccumulate over the array, starting from
      the empty string. */
  method ConcatAll(nodes: seq<Node>) returns (out: string)
    ensures out == Text(nodes)
  {
    out := "";
    var k := 0;
    while k < |nodes|
      invariant 0 <= k <= |nodes|
      invariant out == Text(nodes[..k])
    {
      TextSnoc(nodes, k);
      out := out + Render(nodes[k].path) + "\n";
      k := k + 1;
    }
    assert nodes[..|nodes|] == nodes;
  }

  lemma {:induction false} LineLengthsSnoc(ns: seq<Node>, k: nat)
    requires k < |ns|
    ensures LineLengths(ns[..k + 1]) == LineLengths(ns[..k]) + |Render(ns[k].path)| + 1
  {
    if k > 0 {
      LineLengthsSnoc(ns[1..], k - 1);
      assert ns[..k + 1][1..] == ns[1..][..k];
      assert ns[..k][1..] == ns[1..][..k - 1];
    }
  }

  lemma {:induction false} TextSnoc(ns: seq<Node>, k: nat)
    requires k < |ns|
    ensures Text(ns[..k + 1]) == Text(ns[..k]) + Render(ns[k].path) + "\n"
  {
    if k > 0 {
      TextSnoc(ns[1..], k - 1);
      assert ns[..k + 1][1..] == ns[1..][..k];
      assert ns[..k][1..] == ns[1..][..k - 1];
    }
  }

  /** The accumulated line lengths are the text's length: the buffer holds the
      text and its terminating NUL exactly. */
  lemma {:induction false} TextLength(ns: seq<Node>)
    ensures |Text(ns)| == LineLengths(ns)
  {
    if |ns| > 0 {
      TextLength(ns[1..]);
    }
  }

  // ----- the order of the listing -----

  /** Among a node's children, the ones listed before any directory is
      expanded are exactly its files, and siblings kept in sorted order are
      listed in sorted order. */
  lemma {:induction false} FileChildrenSorted(cs: seq<Node>)
    requires StrictlySorted(cs)
    ensures forall x :: x in FileChildren(cs) <==> x in cs && x.kind == File
    ensures StrictlySorted(FileChildren(cs))
  {
    if |cs| > 0 {
      var tail := cs[1..];
      assert StrictlySorted(tail) by {
        forall i, j | 0 <= i < j < |tail|
          ensures Compare(tail[i].path, tail[j].path) < 0
        {
          assert Compare(cs[i + 1].path, cs[j + 1].path) < 0;
        }
      }
      FileChildrenSorted(tail);
      assert cs == [cs[0]] + tail;
      var fs := FileChildren(cs);
      if cs[0].kind == File {
        var rest := FileChildren(tail);
        assert fs == [cs[0]] + rest;
        forall i, j | 0 <= i < j < |fs|
          ensures Compare(fs[i].path, fs[j].path) < 0
        {
          if i == 0 {
            assert fs[j] == rest[j - 1] && rest[j - 1] in tail;
            var k :| 0 <= k < |tail| && tail[k] == fs[j];
            assert Compare(cs[0].path, cs[k + 1].path) < 0;
          } else {
            assert fs[i] == rest[i - 1] && fs[j] == rest[j - 1];
          }
        }
      }
    }
  }

  // ----- what the listing covers -----

  /** In a tree whose files are leaves, the listing holds every node of the
      subtree exactly once. */
  lemma {:induction false} PreOrderCovers(n: Node)
    requires FilesAreLeaves(n)
    ensures multiset(PreOrder(n)) == multiset(Flatten(n))
    decreases n, 1
  {
    ChildrenCovered(n.children);
  }

  lemma {:induction false} ChildrenCovered(cs: seq<Node>)
    requires forall i :: 0 <= i < |cs| ==> FilesAreLeaves(cs[i])
    ensures multiset(FileChildren(cs) + DirListings(cs)) == multiset(FlattenSeq(cs))
    decreases cs, 0
  {
    if |cs| > 0 {
      var c := cs[0];
      ChildrenCovered(cs[1..]);
      if c.kind == Dir {
        PreOrderCovers(c);
      } else {
        assert Flatten(c) == [c];
      }
    }
  }

  /** On a valid tree the listing has exactly ulCount nodes, so the array
      FT_toString allocates with that many slots is filled exactly, and it
      holds every node of the tree once. */
  lemma ListingCount(s: State)
    requires Valid(s)
    ensures |Listing(s)| == s.count
    ensures s.root.Some? ==> multiset(Listing(s)) == multiset(Flatten(s.root.value))
  {
    if s.root.Some? {
      PreOrderCovers(s.root.value);
      assert |multiset(PreOrder(s.root.value))| == |multiset(Flatten(s.root.value))|;
    }
  }
}
