/**
 * The path abstraction the file tree is built on. The path module itself is
 * not part of this model; it is given here by its abstract contract: a path is
 * a non-empty sequence of non-empty name components without '/', rendered by
 * joining the components with '/', ordered by comparing the rendered strings
 * the way strcmp does.
 */
module Paths {
  import opened Wrappers

  /** A name component: non-empty and free of the delimiter. */
  predicate ValidComponent(c: string) {
    |c| > 0 && '/' !in c
  }

  predicate ValidPath(p: seq<string>) {
    |p| >= 1 && forall i :: 0 <= i < |p| ==> ValidComponent(p[i])
  }

  /** A validated path; its depth is its length. */
  type Path = p: seq<string> | ValidPath(p) witness ["a"]

  /** Path_prefix: the path made of the first m components of p. */
  function Prefix(p: Path, m: nat): (q: Path)
    requires 1 <= m <= |p|
    ensures q == p[..m]
  {
    p[..m]
  }

  /** The rendered form: components joined by '/'. */
  function Render(p: seq<string>): string
    requires |p| >= 1
  {
    if |p| == 1 then p[0] else p[0] + "/" + Render(p[1..])
  }

  /** Splits a string at every '/'; the inverse of Render. */
  function Split(s: string): (parts: seq<string>)
    ensures |parts| >= 1
    ensures forall i :: 0 <= i < |parts| ==> '/' !in parts[i]
  {
    if |s| == 0 then [""]
    else
      var rest := Split(s[1..]);
      if s[0] == '/' then [""] + rest
      else [[s[0]] + rest[0]] + rest[1..]
  }

  /** The syntax a path string must have: non-empty, not starting or ending
      with '/', and no two consecutive '/'. */
  predicate ValidPathString(s: string) {
    && |s| > 0
    && s[0] != '/'
    && s[|s| - 1] != '/'
    && forall i :: 0 <= i < |s| - 1 ==> !(s[i] == '/' && s[i + 1] == '/')
  }

  /** Every '/' is followed by a character other than '/'. */
  predicate DelimitersSeparate(s: string) {
    forall i :: 0 <= i < |s| && s[i] == '/' ==> i + 1 < |s| && s[i + 1] != '/'
  }

  /** Parsing a path string: BAD_PATH (here None) exactly when it is not well formed. */
  function Parse(s: string): (r: Option<Path>)
    ensures r.Some? <==> ValidPathString(s)
    ensures r.Some? ==> Render(r.value) == s
  {
    var parts := Split(s);
    RenderSplit(s);
    SplitNonEmpty(s);
    if forall i :: 0 <= i < |parts| ==> |parts[i]| > 0 then Some(parts) else None
  }

  lemma {:induction false} RenderSplit(s: string)
    ensures Render(Split(s)) == s
    decreases |s|
  {
    if |s| > 0 {
      var rest := Split(s[1..]);
      RenderSplit(s[1..]);
      if s[0] == '/' {
        assert Split(s) == [""] + rest;
        assert ([""] + rest)[1..] == rest;
        assert s == "/" + s[1..];
      } else if |rest| == 1 {
        assert Split(s) == [[s[0]] + rest[0]];
        assert s == [s[0]] + s[1..];
      } else {
        var parts := Split(s);
        assert parts == [[s[0]] + rest[0]] + rest[1..];
        assert parts[1..] == rest[1..];
        assert Render(rest) == rest[0] + "/" + Render(rest[1..]);
        assert s == [s[0]] + s[1..];
      }
    }
  }

  /** The first component is non-empty exactly when s starts with a character other than '/'. */
  lemma SplitHeadNonEmpty(s: string)
    ensures |Split(s)[0]| > 0 <==> |s| > 0 && s[0] != '/'
  {
    if |s| > 0 && s[0] != '/' {
      var rest := Split(s[1..]);
      assert Split(s) == [[s[0]] + rest[0]] + rest[1..];
    }
  }

  /** The components after the first are all non-empty exactly when every
      delimiter in s is followed by a character other than '/'. */
  lemma {:induction false} SplitTailNonEmpty(s: string)
    ensures (forall i :: 1 <= i < |Split(s)| ==> |Split(s)[i]| > 0) <==> DelimitersSeparate(s)
    decreases |s|
  {
    if |s| > 0 {
      var t := s[1..];
      var rest := Split(t);
      SplitTailNonEmpty(t);
      SplitHeadNonEmpty(t);
      var parts := Split(s);
      assert DelimitersSeparate(s) ==> DelimitersSeparate(t) by {
        if DelimitersSeparate(s) {
          forall i | 0 <= i < |t| && t[i] == '/'
            ensures i + 1 < |t| && t[i + 1] != '/'
          {
            assert s[i + 1] == '/';
          }
        }
      }
      if s[0] == '/' {
        assert parts == [""] + rest;
        assert forall i :: 1 <= i < |parts| ==> parts[i] == rest[i - 1];
        assert (forall i :: 1 <= i < |parts| ==> |parts[i]| > 0) <==>
               (|rest[0]| > 0 && forall i :: 1 <= i < |rest| ==> |rest[i]| > 0) by {
          if forall i :: 1 <= i < |parts| ==> |parts[i]| > 0 {
            assert |parts[1]| > 0;
            forall i | 1 <= i < |rest| ensures |rest[i]| > 0 {
              assert parts[i + 1] == rest[i];
            }
          }
        }
        assert DelimitersSeparate(s) <==> (|t| > 0 && t[0] != '/' && DelimitersSeparate(t)) by {
          if |t| > 0 && t[0] != '/' && DelimitersSeparate(t) {
            forall i | 0 <= i < |s| && s[i] == '/'
              ensures i + 1 < |s| && s[i + 1] != '/'
            {
              if i > 0 {
                assert t[i - 1] == '/';
              }
            }
          }
        }
      } else {
        assert parts == [[s[0]] + rest[0]] + rest[1..];
        assert forall i :: 1 <= i < |parts| ==> parts[i] == rest[i];
        assert DelimitersSeparate(t) ==> DelimitersSeparate(s) by {
          if DelimitersSeparate(t) {
            forall i | 0 <= i < |s| && s[i] == '/'
              ensures i + 1 < |s| && s[i + 1] != '/'
            {
              assert t[i - 1] == '/';
            }
          }
        }
      }
    }
  }

  lemma SplitNonEmpty(s: string)
    ensures (forall i :: 0 <= i < |Split(s)| ==> |Split(s)[i]| > 0) <==> ValidPathString(s)
  {
    SplitTailNonEmpty(s);
    SplitHeadNonEmpty(s);
    if DelimitersSeparate(s) && |s| > 0 {
      assert s[|s| - 1] != '/';
      forall i | 0 <= i < |s| - 1
        ensures !(s[i] == '/' && s[i + 1] == '/')
      {
      }
    }
    if ValidPathString(s) {
      forall i | 0 <= i < |s| && s[i] == '/'
        ensures i + 1 < |s| && s[i + 1] != '/'
      {
      }
    }
  }

  lemma {:induction false} SplitNoDelimiter(c: string)
    requires '/' !in c
    ensures Split(c) == [c]
    decreases |c|
  {
    if |c| > 0 {
      assert '/' !in c[1..];
      SplitNoDelimiter(c[1..]);
      assert c == [c[0]] + c[1..];
    }
  }

  lemma {:induction false} SplitJoinStep(c: string, rest: string)
    requires '/' !in c
    ensures Split(c + "/" + rest) == [c] + Split(rest)
    decreases |c|
  {
    var s := c + "/" + rest;
    if |c| == 0 {
      assert s[0] == '/';
      assert s[1..] == rest;
    } else {
      assert s[0] == c[0];
      assert s[1..] == c[1..] + "/" + rest;
      assert '/' !in c[1..];
      SplitJoinStep(c[1..], rest);
      assert c == [c[0]] + c[1..];
    }
  }

  lemma {:induction false} SplitRender(p: seq<string>)
    requires |p| >= 1
    requires forall i :: 0 <= i < |p| ==> '/' !in p[i]
    ensures Split(Render(p)) == p
    decreases |p|
  {
    if |p| == 1 {
      SplitNoDelimiter(p[0]);
    } else {
      SplitRender(p[1..]);
      SplitJoinStep(p[0], Render(p[1..]));
      assert p == [p[0]] + p[1..];
    }
  }

  /** Rendering is a bijection between paths and well-formed strings. */
  lemma ParseRender(p: Path)
    ensures Parse(Render(p)) == Some(p)
  {
    SplitRender(p);
  }

  /** strcmp on strings, reduced to its sign. */
  function StrCompare(a: string, b: string): (r: int)
    ensures -1 <= r <= 1
    ensures r == 0 <==> a == b
  {
    if |a| == 0 then (if |b| == 0 then 0 else -1)
    else if |b| == 0 then 1
    else if a[0] < b[0] then -1
    else if b[0] < a[0] then 1
    else
      assert a == [a[0]] + a[1..] && b == [b[0]] + b[1..];
      StrCompare(a[1..], b[1..])
  }

  lemma {:induction false} StrCompareAntisymmetric(a: string, b: string)
    ensures StrCompare(a, b) == -StrCompare(b, a)
    decreases |a|
  {
    if |a| > 0 && |b| > 0 && a[0] == b[0] {
      StrCompareAntisymmetric(a[1..], b[1..]);
    }
  }

  lemma {:induction false} StrCompareTransitive(a: string, b: string, c: string)
    requires StrCompare(a, b) < 0 && StrCompare(b, c) < 0
    ensures StrCompare(a, c) < 0
    decreases |a|
  {
    if |a| > 0 && |b| > 0 && |c| > 0 && a[0] == b[0] && b[0] == c[0] {
      StrCompareTransitive(a[1..], b[1..], c[1..]);
    }
  }

  lemma RenderInjective(a: Path, b: Path)
    ensures Render(a) == Render(b) ==> a == b
  {
    ParseRender(a);
    ParseRender(b);
  }

  /** Path comparison: the sign of strcmp on the rendered strings. */
  function Compare(a: Path, b: Path): (r: int)
    ensures -1 <= r <= 1
    ensures r == 0 <==> a == b
  {
    RenderInjective(a, b);
    StrCompare(Render(a), Render(b))
  }

  lemma CompareAntisymmetric(a: Path, b: Path)
    ensures Compare(a, b) < 0 <==> Compare(b, a) > 0
  {
    StrCompareAntisymmetric(Render(a), Render(b));
  }

  lemma CompareTransitive(a: Path, b: Path, c: Path)
    requires Compare(a, b) < 0 && Compare(b, c) < 0
    ensures Compare(a, c) < 0
  {
    StrCompareTransitive(Render(a), Render(b), Render(c));
  }

  /** The number of leading components two paths have in common. */
  function SharedPrefixDepth(a: seq<string>, b: seq<string>): (r: nat)
    ensures r <= |a| && r <= |b|
    ensures a[..r] == b[..r]
    ensures r < |a| && r < |b| ==> a[r] != b[r]
  {
    if |a| == 0 || |b| == 0 || a[0] != b[0] then 0
    else
      var r := 1 + SharedPrefixDepth(a[1..], b[1..]);
      assert a[..r] == [a[0]] + a[1..][..r - 1];
      assert b[..r] == [b[0]] + b[1..][..r - 1];
      r
  }
}
