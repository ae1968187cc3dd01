/**
 * `_split_path`: a relative path string cut into its segments by repeated
 * POSIX `os.path.split`.
 */
module Paths {
  import opened Text

  predicate NoSlash(s: string) {
    forall i :: 0 <= i < |s| ==> s[i] != '/'
  }

  predicate AllSlashes(s: string) {
    forall i :: 0 <= i < |s| ==> s[i] == '/'
  }

  /** A path that does not start at the file-system root. */
  predicate Relative(p: string) {
    |p| == 0 || p[0] != '/'
  }

  /** A non-empty name without a separator: one segment of a path. */
  predicate IsSegment(s: string) {
    s != "" && NoSlash(s)
  }

  /** `s.rfind('/')`: the index of the last separator, or -1. */
  function LastSlash(s: string): (r: int)
    ensures -1 <= r < |s|
    ensures r >= 0 ==> s[r] == '/'
    ensures forall j :: r < j < |s| ==> s[j] != '/'
  {
    if |s| == 0 then -1
    else if s[|s| - 1] == '/' then |s| - 1
    else LastSlash(s[..|s| - 1])
  }

  /** `s.rstrip('/')` */
  function RStripSlashes(s: string): (r: string)
    ensures |r| <= |s| && r == s[..|r|]
    ensures r == "" || r[|r| - 1] != '/'
    ensures forall k :: |r| <= k < |s| ==> s[k] == '/'
  {
    if |s| > 0 && s[|s| - 1] == '/' then RStripSlashes(s[..|s| - 1]) else s
  }

  /** POSIX `os.path.split(p)`: (head, tail) around the last separator. */
  function Split(p: string): (r: (string, string))
    ensures NoSlash(r.1)
    ensures Relative(p) ==> Relative(r.0)
    ensures Relative(p) ==> (|r.0| == 0 <==> NoSlash(p))
    ensures Relative(p) && |r.0| != 0 ==> |r.0| < |p|
  {
    var i := LastSlash(p) + 1;
    var head, tail := p[..i], p[i..];
    if head != "" && !AllSlashes(head) then
      (RStripSlashes(head), tail)
    else
      (head, tail)
  }

  /** What `_split_path(p)` returns, defined by recursion on the head. */
  function SplitPathOf(p: string): (r: seq<string>)
    requires Relative(p)
    ensures |r| >= 1
    decreases |p|
  {
    var parts := Split(p);
    if |parts.0| == 0 then [parts.1] else SplitPathOf(parts.0) + [parts.1]
  }

  /**
   * `_split_path`: prepends the tail of each split until the head is empty.
   * An absolute path never reaches an empty head (`os.path.split("/")` is
   * `("/", "")`), so the source loops forever on one; hence the requirement.
   */
  method SplitPath(p: string) returns (out: seq<string>)
    requires Relative(p)
    ensures out == SplitPathOf(p)
  {
    var head := p;
    out := [];
    while true
      invariant Relative(head)
      invariant SplitPathOf(p) == SplitPathOf(head) + out
      decreases |head|
    {
      var parts := Split(head);
      ghost var rest := out;
      out := [parts.1] + out;
      if |parts.0| == 0 {
        assert SplitPathOf(head) == [parts.1];
        break;
      }
      assert SplitPathOf(head) + rest == SplitPathOf(parts.0) + out;
      head := parts.0;
    }
  }

  /** The first and last characters of a `/`-join of segments are not separators. */
  lemma {:induction false} JoinEnds(segs: seq<string>)
    requires |segs| >= 1 && forall k :: 0 <= k < |segs| ==> IsSegment(segs[k])
    ensures var j := Join(segs, "/"); j != "" && j[0] != '/' && j[|j| - 1] != '/'
  {
    if |segs| > 1 {
      JoinEnds(segs[..|segs| - 1]);
      var j0 := Join(segs[..|segs| - 1], "/");
      assert Join(segs, "/") == j0 + "/" + segs[|segs| - 1];
      assert (j0 + "/" + segs[|segs| - 1])[0] == j0[0];
    }
  }

  /** The last separator of `a + "/" + b` is the one added, when `b` has none. */
  lemma LastSlashOfJoin(a: string, b: string)
    requires NoSlash(b)
    ensures LastSlash(a + "/" + b) == |a|
  {
    assert (a + "/" + b)[|a|] == '/';
  }

  /** Stripping the separator added after a string that does not end in one. */
  lemma StripOfJoin(a: string)
    requires a != "" && a[|a| - 1] != '/'
    ensures RStripSlashes(a + "/") == a
  {
    assert (a + "/")[|a| - 1] == a[|a| - 1];
  }

  /** Splitting at the separator added between `a` and a separator-free `b`. */
  lemma SplitOfJoin(a: string, b: string)
    requires a != "" && a[0] != '/' && a[|a| - 1] != '/'
    requires NoSlash(b)
    ensures Split(a + "/" + b) == (a, b)
  {
    var p := a + "/" + b;
    LastSlashOfJoin(a, b);
    assert p[..|a| + 1] == a + "/";
    assert p[|a| + 1..] == b;
    assert !AllSlashes(a + "/") by { assert (a + "/")[0] == a[0]; }
    StripOfJoin(a);
  }

  /** A single segment splits into an empty head and itself. */
  lemma SplitOfSegment(s: string)
    requires IsSegment(s)
    ensures Split(s) == ("", s)
  {
    assert LastSlash(s) == -1;
  }

  /**
   * Splitting a `/`-join of non-empty, separator-free segments gives back
   * exactly those segments, in order.
   */
  lemma {:induction false} SplitPathOfJoin(segs: seq<string>)
    requires |segs| >= 1 && forall k :: 0 <= k < |segs| ==> IsSegment(segs[k])
    ensures Relative(Join(segs, "/"))
    ensures SplitPathOf(Join(segs, "/")) == segs
  {
    JoinEnds(segs);
    var n := |segs|;
    if n == 1 {
      SplitOfSegment(segs[0]);
    } else {
      var init, last := segs[..n - 1], segs[n - 1];
      assert segs == init + [last];
      var j0 := Join(init, "/");
      JoinEnds(init);
      SplitPathOfJoin(init);
      SplitOfJoin(j0, last);
      assert Join(segs, "/") == j0 + "/" + last;
    }
  }
}
