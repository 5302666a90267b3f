/**
 * The video classifier `looksLikeVideo` (app.js:10-21), with the parts of
 * Node's `path` module it relies on (`path.extname`, and `path.basename`,
 * which the extractor uses for display names) written out on POSIX paths.
 * Like Node's own code, both work on positions in the path: where the run
 * of trailing separators starts, where the last separator and the last
 * dot before it are.
 */
module Classifier {
  import opened Wrappers

  /** The fixed allow-list `VIDEO_EXTS`, in its source order. */
  const VideoExts: seq<string> := [".mp4", ".mkv", ".m3u8", ".webm", ".avi", ".mov", ".flv", ".ts", ".wmv"]

  /** `toLowerCase` on one character, for the ASCII letters a URL pathname can hold. */
  function LowerChar(c: char): (r: char)
    ensures r == '.' <==> c == '.'
    ensures r == '/' <==> c == '/'
    ensures 'A' <= c <= 'Z' ==> 'a' <= r <= 'z'
    ensures !('A' <= c <= 'Z') ==> r == c
  {
    if 'A' <= c <= 'Z' then (c as int - 'A' as int + 'a' as int) as char else c
  }

  function Lower(s: string): (r: string)
    ensures |r| == |s|
    ensures forall i {:trigger r[i]} :: 0 <= i < |s| ==> r[i] == LowerChar(s[i])
  {
    seq(|s|, i requires 0 <= i < |s| => LowerChar(s[i]))
  }

  /** Position of the last `c` among the first `n` characters of `s`, or -1 when there is none. */
  function LastIndexBefore(s: string, c: char, n: nat): (r: int)
    requires n <= |s|
    ensures -1 <= r < n
    ensures r >= 0 ==> s[r] == c
    ensures forall k :: r < k < n ==> s[k] != c
  {
    if n == 0 then -1
    else if s[n - 1] == c then n - 1
    else LastIndexBefore(s, c, n - 1)
  }

  /** The last `c` before `n` is at `k` when `s[k]` is one and none follows it. */
  lemma LastIndexBeforeAt(s: string, c: char, n: nat, k: int)
    requires -1 <= k < n <= |s| && (k >= 0 ==> s[k] == c)
    requires forall j :: k < j < n ==> s[j] != c
    ensures LastIndexBefore(s, c, n) == k
  {
  }

  /** The length of the first `n` characters of `p` once their run of trailing separators is removed. */
  function TrimmedLength(p: string, n: nat): (r: nat)
    requires n <= |p|
    ensures r <= n
    ensures r == 0 || p[r - 1] != '/'
    ensures forall k :: r <= k < n ==> p[k] == '/'
  {
    if n > 0 && p[n - 1] == '/' then TrimmedLength(p, n - 1) else n
  }

  /** Where the path ends once trailing separators are ignored, as `path.extname` and `path.basename` first do. */
  function End(p: string): nat
    ensures End(p) <= |p|
  {
    TrimmedLength(p, |p|)
  }

  /** Where the last segment starts: just after the last separator before `End(p)`. */
  function SegmentStart(p: string): (r: nat)
    ensures r <= End(p)
    ensures r > 0 ==> p[r - 1] == '/'
    ensures forall k :: r <= k < End(p) ==> p[k] != '/'
  {
    LastIndexBefore(p, '/', End(p)) + 1
  }

  /** `path.basename(p)`: the last non-empty segment of `p`, empty when `p` holds only separators. */
  function Basename(p: string): (r: string)
    ensures '/' !in r
  {
    p[SegmentStart(p)..End(p)]
  }

  /**
   * `path.extname(p)`: from the last `.` of the last segment to its end.
   * A segment without a dot, a segment whose last dot is its first
   * character (`.mp4`, `.hidden`) and the segment `..` have no extension.
   */
  function Extname(p: string): string
  {
    var start, end := SegmentStart(p), End(p);
    var d := LastIndexBefore(p, '.', end);
    if d <= start || (end == start + 2 && d == start + 1 && p[start] == '.') then ""
    else p[d..end]
  }

  /**
   * The shape of an extension: empty, or the non-empty tail of the path up
   * to trailing separators that starts with a dot, holds no other dot and no
   * separator, and follows a character of the same segment.
   */
  lemma ExtnameShape(p: string)
    ensures var x, n := Extname(p), End(p);
      x == "" ||
      (|x| < n && x == p[n - |x|..n] && x[0] == '.' && p[n - |x| - 1] != '/' &&
       forall j :: n - |x| < j < n ==> p[j] != '.' && p[j] != '/')
  {
  }

  /**
   * `path.extname` of a path whose last segment is `stem` + "." + `tail`,
   * with no separator in either part and no dot in `tail`.
   */
  lemma ExtnameOfParts(dir: string, stem: string, tail: string)
    requires '/' !in stem && '/' !in tail && '.' !in tail
    ensures Extname(dir + "/" + stem + "." + tail) ==
      if stem == "" || (stem == "." && tail == "") then "" else "." + tail
  {
    var p := dir + "/" + stem + "." + tail;
    var s := |dir|;
    var d := s + 1 + |stem|;
    assert p[s] == '/' && p[d] == '.';
    assert p[|p| - 1] != '/';
    forall j | s < j < |p| ensures p[j] != '/' && (j > d ==> p[j] != '.') {
      if j < d { assert p[j] == stem[j - s - 1]; }
      else if j > d { assert p[j] == tail[j - d - 1]; }
    }
    assert End(p) == |p|;
    LastIndexBeforeAt(p, '/', |p|, s);
    LastIndexBeforeAt(p, '.', |p|, d);
    assert p[d..] == "." + tail;
    assert stem == "." ==> p[s + 1] == '.';
    assert |stem| == 1 && p[s + 1] == '.' ==> stem == ".";
  }

  /** A last segment without a dot has no extension. */
  lemma ExtnameNoDot(dir: string, name: string)
    requires name != "" && '/' !in name && '.' !in name
    ensures Extname(dir + "/" + name) == ""
  {
    var p := dir + "/" + name;
    var s := |dir|;
    assert p[|p| - 1] == name[|name| - 1];
    forall j | s < j < |p| ensures p[j] != '/' && p[j] != '.' {
      assert p[j] == name[j - s - 1];
    }
    assert p[s] == '/';
    assert End(p) == |p|;
    LastIndexBeforeAt(p, '/', |p|, s);
  }

  /** Trimming the first `k` characters only looks at those characters. */
  lemma TrimmedLengthPrefix(p: string, t: string, k: nat)
    requires k <= |t| <= |p| && t == p[..|t|]
    ensures TrimmedLength(p, k) == TrimmedLength(t, k)
  {
  }

  /** The last `c` before `k` only looks at the first `k` characters. */
  lemma LastIndexBeforePrefix(p: string, t: string, c: char, k: nat)
    requires k <= |t| <= |p| && t == p[..|t|]
    ensures LastIndexBefore(p, c, k) == LastIndexBefore(t, c, k)
  {
  }

  /** A trailing separator does not change the extension. */
  lemma ExtnameTrailingSlash(p: string)
    requires |p| > 0 && p[|p| - 1] == '/'
    ensures Extname(p) == Extname(p[..|p| - 1])
  {
    var t := p[..|p| - 1];
    TrimmedLengthPrefix(p, t, |t|);
    assert End(p) == End(t);
    LastIndexBeforePrefix(p, t, '/', End(t));
    LastIndexBeforePrefix(p, t, '.', End(t));
    var start, end := SegmentStart(t), End(t);
    assert p[..end] == t[..end];
    if end > 0 { assert p[end - 1] == t[end - 1]; }
    if start < end { assert p[start] == t[start]; }
  }

  /**
   * Reference reading of the classifier, independent of `path.extname`: the
   * lower-cased path, trailing separators ignored, ends in one of the listed
   * extensions, and at least one more character of the same segment comes
   * before that extension.
   */
  ghost predicate EndsWithVideoExt(p: string)
  {
    var q := Lower(p);
    exists k :: 0 <= k < |VideoExts| && EndsWithinSegment(q, End(q), VideoExts[k])
  }

  /** The first `n` characters of `q` end in `e`, preceded by a character that is not a separator. */
  ghost predicate EndsWithinSegment(q: string, n: nat, e: string)
    requires n <= |q|
  {
    |e| < n && q[n - |e|..n] == e && q[n - |e| - 1] != '/'
  }

  /** A dot followed by at least one character that is neither a dot nor a separator. */
  ghost predicate PlainExt(e: string)
  {
    |e| >= 2 && e[0] == '.' && forall j :: 1 <= j < |e| ==> e[j] != '.' && e[j] != '/'
  }

  /** Every listed extension is plain. */
  lemma VideoExtsPlain(k: int)
    requires 0 <= k < |VideoExts|
    ensures PlainExt(VideoExts[k])
  {
  }

  /** Lower-casing keeps every separator where it is, so trailing separators are trimmed at the same place. */
  lemma {:induction false} TrimmedLengthLower(p: string, n: nat)
    requires n <= |p|
    ensures TrimmedLength(Lower(p), n) == TrimmedLength(p, n)
  {
    if n > 0 && p[n - 1] == '/' {
      TrimmedLengthLower(p, n - 1);
    }
  }

  /** Lower-casing a slice of a string gives that slice of the lower-cased string. */
  lemma LowerSlice(s: string, a: int, b: int)
    requires 0 <= a <= b <= |s|
    ensures Lower(s)[a..b] == Lower(s[a..b])
  {
  }

  /** A slice ending at `n` that follows a non-separator, lower-cased to `e`, makes the lower-cased path end in `e`. */
  lemma SliceEndsPath(p: string, n: nat, x: string, e: string)
    requires |x| < n <= |p| && x == p[n - |x|..n] && p[n - |x| - 1] != '/'
    requires Lower(x) == e
    ensures EndsWithinSegment(Lower(p), n, e)
  {
    var a := n - |x|;
    LowerSlice(p, a, n);
    assert Lower(p)[a - 1] == LowerChar(p[a - 1]);
  }

  /** An extension the classifier arrives at ends its segment of the lower-cased path. */
  lemma ExtEndsPath(p: string, e: string)
    requires PlainExt(e) && Lower(Extname(p)) == e
    ensures EndsWithinSegment(Lower(p), End(Lower(p)), e)
  {
    TrimmedLengthLower(p, |p|);
    ExtnameShape(p);
    SliceEndsPath(p, End(p), Extname(p), e);
  }

  /** Where a plain extension ends the lower-cased path, the path has a dot there and then no dot or separator. */
  lemma PlainTail(p: string, n: nat, e: string)
    requires n <= |p| && PlainExt(e) && EndsWithinSegment(Lower(p), n, e)
    ensures var m := n - |e|;
      p[m] == '.' && p[m - 1] != '/' &&
      forall j :: m < j < n ==> p[j] != '/' && p[j] != '.'
  {
    var m := n - |e|;
    var lp := Lower(p);
    assert LowerChar(p[m - 1]) != '/';
    assert LowerChar(p[m]) == lp[m..n][0] == '.';
    forall j | m < j < n ensures p[j] != '/' && p[j] != '.' {
      assert lp[m..n][j - m] == e[j - m];
      assert LowerChar(p[j]) == e[j - m];
    }
  }

  /** A plain extension ending its segment of the lower-cased path is what the classifier arrives at. */
  lemma PathEndsExt(p: string, e: string)
    requires PlainExt(e) && EndsWithinSegment(Lower(p), End(Lower(p)), e)
    ensures Lower(Extname(p)) == e
  {
    TrimmedLengthLower(p, |p|);
    var n := End(p);
    var m := n - |e|;
    PlainTail(p, n, e);
    var start := SegmentStart(p);
    assert start < m;
    LastIndexBeforeAt(p, '.', n, m);
    assert Extname(p) == p[m..n];
    LowerSlice(p, m, n);
  }

  /** The classifier's test on a pathname agrees with the reference reading, in both directions. */
  lemma VideoExtIff(p: string)
    ensures Lower(Extname(p)) in VideoExts <==> EndsWithVideoExt(p)
  {
    var q := Lower(p);
    if Lower(Extname(p)) in VideoExts {
      var k :| 0 <= k < |VideoExts| && VideoExts[k] == Lower(Extname(p));
      VideoExtsPlain(k);
      ExtEndsPath(p, VideoExts[k]);
    }
    if EndsWithVideoExt(p) {
      var k :| 0 <= k < |VideoExts| && EndsWithinSegment(q, End(q), VideoExts[k]);
      VideoExtsPlain(k);
      PathEndsExt(p, VideoExts[k]);
    }
  }

  /**
   * `looksLikeVideo(href)`: the pathname which URL parsing yields for the
   * href has a listed extension, compared case-insensitively; false, not an
   * error, when the href does not parse. `pathnameOf` stands for
   * `new URL(href, 'http://example.com').pathname`, `None` when it throws.
   */
  function LooksLikeVideo(pathnameOf: string -> Option<string>, href: string): (r: bool)
    ensures pathnameOf(href).None? ==> !r
    ensures pathnameOf(href).Some? ==> (r <==> EndsWithVideoExt(pathnameOf(href).value))
  {
    match pathnameOf(href)
    case None => false
    case Some(p) => VideoExtIff(p); Lower(Extname(p)) in VideoExts
  }

  /** The classifier cannot tell two pathnames apart that differ only in letter case. */
  lemma CaseInsensitive(pathnameOf: string -> Option<string>, h1: string, h2: string)
    requires pathnameOf(h1).Some? && pathnameOf(h2).Some?
    requires Lower(pathnameOf(h1).value) == Lower(pathnameOf(h2).value)
    ensures LooksLikeVideo(pathnameOf, h1) == LooksLikeVideo(pathnameOf, h2)
  {
  }
}
