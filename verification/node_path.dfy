/**
 * Node's POSIX `path.extname`, which the upload path uses to name an
 * object, modelled from its documented behaviour.
 */
module NodePath {

  /** Index of the last `c` in `s`, or -1 when `s` holds none. */
  function LastIndexOf(s: string, c: char): (r: int)
    ensures -1 <= r < |s|
    ensures r >= 0 ==> s[r] == c
    ensures forall k :: r < k < |s| ==> s[k] != c
  {
    if |s| == 0 then -1
    else if s[|s| - 1] == c then |s| - 1
    else LastIndexOf(s[..|s| - 1], c)
  }

  /** `p` without the run of `/` it ends with. */
  function TrimTrailingSlashes(p: string): (t: string)
    ensures |t| <= |p| && t == p[..|t|]
    ensures t == [] || t[|t| - 1] != '/'
    ensures forall k :: |t| <= k < |p| ==> p[k] == '/'
  {
    if |p| > 0 && p[|p| - 1] == '/' then TrimTrailingSlashes(p[..|p| - 1]) else p
  }

  /** The last path component, trailing separators ignored. */
  function FinalSegment(p: string): string {
    var t := TrimTrailingSlashes(p);
    t[LastIndexOf(t, '/') + 1..]
  }

  /**
   * The final segment holds no `/` and is the longest such suffix of the
   * path without its trailing separators.
   */
  lemma FinalSegmentShape(p: string)
    ensures var t, b := TrimTrailingSlashes(p), FinalSegment(p);
      && '/' !in b
      && |b| <= |t| && b == t[|t| - |b|..]
      && (|b| < |t| ==> t[|t| - |b| - 1] == '/')
  {
  }

  /**
   * The extension of one path segment: from its last `.` on; empty when it
   * has no `.`, when its last `.` is its first character (a dot-file such
   * as `.bashrc`), and for `..`.
   */
  function SegmentExt(b: string): (e: string)
    ensures e == [] || (e[0] == '.' && '.' !in e[1..])
  {
    var d := LastIndexOf(b, '.');
    if d <= 0 || b == ".." then "" else b[d..]
  }

  /**
   * `path.extname`: trailing separators are ignored, then the extension of
   * the last segment is taken.
   */
  function ExtName(p: string): (e: string)
    ensures e == [] || (e[0] == '.' && '.' !in e[1..])
    decreases |p|
  {
    if |p| > 0 && p[|p| - 1] == '/' then ExtName(p[..|p| - 1])
    else SegmentExt(p[LastIndexOf(p, '/') + 1..])
  }

  /** `path.extname` is the extension of the final segment. */
  lemma {:induction false} ExtNameIsSegmentExt(p: string)
    ensures ExtName(p) == SegmentExt(FinalSegment(p))
    decreases |p|
  {
    if |p| > 0 && p[|p| - 1] == '/' {
      var q := p[..|p| - 1];
      ExtNameIsSegmentExt(q);
      assert TrimTrailingSlashes(p) == TrimTrailingSlashes(q);
      assert FinalSegment(p) == FinalSegment(q);
    } else {
      assert TrimTrailingSlashes(p) == p;
    }
  }

  /**
   * The extension of a segment is a suffix of it that leaves something
   * before it, and it is empty only when no `.` follows the segment's first
   * character, or the segment is `..`.
   */
  lemma SegmentExtIsSuffix(b: string)
    ensures var e := SegmentExt(b);
      && |e| <= |b| && e == b[|b| - |e|..]
      && ('/' !in b ==> '/' !in e)
      && (e != [] ==> |e| < |b| && b != "..")
      && (e == [] ==> b == ".." || forall k :: 0 < k < |b| ==> b[k] != '.')
  {
  }

  /** Hence the same of `path.extname` and the final segment, which holds no `/`. */
  lemma ExtNameOfFinalSegment(p: string)
    ensures '/' !in ExtName(p)
    ensures var b, e := FinalSegment(p), ExtName(p);
      && |e| <= |b| && e == b[|b| - |e|..]
      && (e != [] ==> |e| < |b| && b != "..")
      && (e == [] ==> b == ".." || forall k :: 0 < k < |b| ==> b[k] != '.')
  {
    FinalSegmentShape(p);
    ExtNameIsSegmentExt(p);
    SegmentExtIsSuffix(FinalSegment(p));
  }

  /** The first example of Node's documentation of `path.extname`. */
  lemma ExtNameOfHtml()
    ensures ExtName("index.html") == ".html"
  {
    var p := "index.html";
    assert |p| == 10 && p[9] == 'l' && p[5] == '.';
    assert TrimTrailingSlashes(p) == p;
    assert '/' !in p;
    assert FinalSegment(p) == p;
    assert forall k :: 5 < k < 10 ==> p[k] != '.';
    assert LastIndexOf(p, '.') == 5;
    assert p[5..] == ".html";
  }
}
