/**
 * `path.extname` of Node's POSIX path module, the only library routine the
 * resolver needs to pick an extension out of a URL pathname. Node scans the
 * string from the right: separators at the very end are skipped, the last
 * segment runs back to the previous `/`, and its last `.` starts the
 * extension, except when that dot is the segment's first character (a dot
 * file such as `.env`) or the segment is exactly `..`.
 *
 * Like Node's scan, the definitions below walk indices of the unchanged
 * path rather than cutting it into pieces.
 */
module NodePath {
  import opened Strings

  /** Where `p[..n]` ends once its trailing `/` characters are skipped. */
  function TrimmedEnd(p: string, n: nat): (m: nat)
    requires n <= |p|
    ensures m <= n
    ensures m == 0 || p[m - 1] != '/'
    ensures forall i :: m <= i < n ==> p[i] == '/'
    decreases n
  {
    if n > 0 && p[n - 1] == '/' then TrimmedEnd(p, n - 1) else n
  }

  /** Where the segment ending at `n` starts: just after the last `/` before `n`, or 0. */
  function SegmentStart(p: string, n: nat): (k: nat)
    requires n <= |p|
    ensures k <= n
    ensures k == 0 || p[k - 1] == '/'
    ensures forall i :: k <= i < n ==> p[i] != '/'
    decreases n
  {
    if n == 0 || p[n - 1] == '/' then n else SegmentStart(p, n - 1)
  }

  /** The index of the last `.` in `p[k..n]`, or `k - 1` when there is none. */
  function LastDot(p: string, k: nat, n: nat): (d: int)
    requires k <= n <= |p|
    ensures k - 1 <= d < n
    ensures d >= k ==> p[d] == '.'
    ensures forall j :: d < j < n ==> p[j] != '.'
    decreases n
  {
    if n == k then k - 1 else if p[n - 1] == '.' then n - 1 else LastDot(p, k, n - 1)
  }

  /** The end of the segment an extension is taken from. */
  function BaseEnd(p: string): nat
    ensures BaseEnd(p) <= |p|
  {
    TrimmedEnd(p, |p|)
  }

  /** The start of the segment an extension is taken from. */
  function BaseStart(p: string): nat
    ensures BaseStart(p) <= BaseEnd(p)
  {
    SegmentStart(p, BaseEnd(p))
  }

  /** The segment an extension is taken from: the last one, trailing separators skipped. */
  function BaseName(p: string): string {
    p[BaseStart(p)..BaseEnd(p)]
  }

  /** A dot somewhere after the first character of `seg`. */
  predicate HasInnerDot(seg: string) {
    exists j :: 0 < j < |seg| && seg[j] == '.'
  }

  /** `path.extname(p)`, scanning indices as Node does. */
  function Extname(p: string): string {
    var n := BaseEnd(p);
    var k := SegmentStart(p, n);
    var d := LastDot(p, k, n);
    if d <= k || (n - k == 2 && p[k] == '.' && p[k + 1] == '.') then "" else p[d..n]
  }

  /** The extension is empty, or a `.` followed by no other `.` and no `/`. */
  lemma ExtnameShape(p: string)
    ensures var ext := Extname(p);
            ext == [] || (ext[0] == '.' && '/' !in ext && '.' !in ext[1..])
  {
    var n := BaseEnd(p);
    var k := BaseStart(p);
    var d := LastDot(p, k, n);
    var ext := Extname(p);
    if ext != [] {
      assert ext == p[d..n];
      forall j | 0 <= j < |ext|
        ensures ext[j] != '/' && (j > 0 ==> ext[j] != '.')
      {
        assert ext[j] == p[d + j];
      }
      assert forall j :: 0 <= j < |ext| - 1 ==> ext[1..][j] == ext[j + 1];
    }
  }

  /** The extension is a suffix of the last segment. */
  lemma ExtnameEndsBaseName(p: string)
    ensures EndsWith(BaseName(p), Extname(p))
  {
    var n := BaseEnd(p);
    var k := BaseStart(p);
    var seg := BaseName(p);
    var ext := Extname(p);
    if ext != [] {
      assert seg[|seg| - |ext|..] == ext;
    }
  }

  /** The extension is empty exactly when the last segment has no dot after its first character, or is `..`. */
  lemma ExtnameEmptyIff(p: string)
    ensures Extname(p) == [] <==> BaseName(p) == ".." || !HasInnerDot(BaseName(p))
  {
    var n := BaseEnd(p);
    var k := BaseStart(p);
    var d := LastDot(p, k, n);
    var seg := BaseName(p);
    if d <= k {
      forall j | 0 < j < |seg|
        ensures seg[j] != '.'
      {
        assert seg[j] == p[k + j];
      }
    } else {
      assert seg[d - k] == '.';
      if n - k == 2 && p[k] == '.' && p[k + 1] == '.' {
        assert seg == "..";
      }
    }
  }

  /** The scan of `p[..n]` looks at nothing beyond `n`: paths agreeing below `n` scan alike. */
  lemma {:induction false} ScanAgrees(p: string, q: string, n: nat)
    requires n <= |p| && n <= |q|
    requires forall i :: 0 <= i < n ==> p[i] == q[i]
    ensures TrimmedEnd(p, n) == TrimmedEnd(q, n)
    ensures SegmentStart(p, n) == SegmentStart(q, n)
  {
    if n > 0 {
      ScanAgrees(p, q, n - 1);
    }
  }

  /** The same for the search for the last dot. */
  lemma {:induction false} LastDotAgrees(p: string, q: string, k: nat, n: nat)
    requires k <= n <= |p| && n <= |q|
    requires forall i :: 0 <= i < n ==> p[i] == q[i]
    ensures LastDot(p, k, n) == LastDot(q, k, n)
  {
    if k < n {
      LastDotAgrees(p, q, k, n - 1);
    }
  }

  /** Appending a `/` leaves the scan's end, segment start and last dot where they were. */
  lemma ScanIgnoresTrailingSlash(p: string)
    ensures BaseEnd(p + "/") == BaseEnd(p) && BaseStart(p + "/") == BaseStart(p)
    ensures LastDot(p + "/", BaseStart(p), BaseEnd(p)) == LastDot(p, BaseStart(p), BaseEnd(p))
  {
    var q := p + "/";
    assert forall i :: 0 <= i < |p| ==> p[i] == q[i];
    ScanAgrees(p, q, |p|);
    assert TrimmedEnd(q, |q|) == TrimmedEnd(q, |p|);
    ScanAgrees(p, q, BaseEnd(p));
    LastDotAgrees(p, q, BaseStart(p), BaseEnd(p));
  }

  /** A trailing separator does not change the extension. */
  lemma ExtnameIgnoresTrailingSlash(p: string)
    ensures Extname(p + "/") == Extname(p)
  {
    ScanIgnoresTrailingSlash(p);
    var n := BaseEnd(p);
    assert (p + "/")[..n] == p[..n];
  }

  /** In a path with a `/` at `s` and none after it up to `n`, the segment ending at `n` starts at `s + 1`. */
  lemma SegmentStartAfterSlash(p: string, s: nat, n: nat)
    requires s < n <= |p| && p[s] == '/'
    requires forall i :: s < i < n ==> p[i] != '/'
    ensures SegmentStart(p, n) == s + 1
  {
  }

  /** A `.` at `dot` with none after it up to `n` is the last dot. */
  lemma LastDotIsAt(p: string, k: nat, n: nat, dot: nat)
    requires k <= dot < n <= |p| && p[dot] == '.'
    requires forall j :: dot < j < n ==> p[j] != '.'
    ensures LastDot(p, k, n) == dot
  {
  }

  /** The path `dir + "/" + stem + ext` ends with no separator. */
  lemma FileEnd(dir: string, stem: string, ext: string)
    requires ext != [] && '/' !in ext
    ensures BaseEnd(dir + "/" + stem + ext) == |dir + "/" + stem + ext|
  {
    var p := dir + "/" + stem + ext;
    assert p[|p| - 1] == ext[|ext| - 1] && ext[|ext| - 1] in ext;
  }

  /** The last segment of `dir + "/" + stem + ext` is `stem + ext`. */
  lemma FileSegment(dir: string, stem: string, ext: string)
    requires '/' !in stem && '/' !in ext
    ensures SegmentStart(dir + "/" + stem + ext, |dir + "/" + stem + ext|) == |dir| + 1
  {
    var p := dir + "/" + stem + ext;
    var s, dot := |dir|, |dir| + 1 + |stem|;
    forall i | s < i < |p|
      ensures p[i] != '/'
    {
      if i < dot {
        assert p[i] == stem[i - s - 1];
      } else {
        assert p[i] == ext[i - dot];
      }
    }
    SegmentStartAfterSlash(p, s, |p|);
  }

  /** The last dot of `dir + "/" + stem + ext` is the first character of `ext`. */
  lemma FileDot(dir: string, stem: string, ext: string)
    requires ext != [] && ext[0] == '.' && '.' !in ext[1..]
    ensures LastDot(dir + "/" + stem + ext, |dir| + 1, |dir + "/" + stem + ext|) == |dir| + 1 + |stem|
  {
    var p := dir + "/" + stem + ext;
    var dot := |dir| + 1 + |stem|;
    forall j | dot < j < |p|
      ensures p[j] != '.'
    {
      assert p[j] == ext[1..][j - dot - 1];
    }
    LastDotIsAt(p, |dir| + 1, |p|, dot);
  }

  /** A file `stem + ext` under any directory has the extension `ext`. */
  lemma ExtnameOfFile(dir: string, stem: string, ext: string)
    requires stem != [] && '/' !in stem
    requires |ext| > 1 && ext[0] == '.' && '/' !in ext && '.' !in ext[1..]
    ensures Extname(dir + "/" + stem + ext) == ext
  {
    var p := dir + "/" + stem + ext;
    FileEnd(dir, stem, ext);
    FileSegment(dir, stem, ext);
    FileDot(dir, stem, ext);
    assert p[|dir| + 1 + |stem|..] == ext;
  }

  /** A name with no dot after its first character (`docs`, `.env`) has no extension. */
  lemma ExtnameOfPlainName(dir: string, name: string)
    requires name != [] && '/' !in name && '.' !in name[1..]
    ensures Extname(dir + "/" + name) == ""
  {
    var p := dir + "/" + name;
    var s := |dir|;
    assert BaseEnd(p) == |p| by {
      assert p[|p| - 1] == name[|name| - 1] && name[|name| - 1] in name;
    }
    assert SegmentStart(p, |p|) == s + 1 by {
      forall i | s < i < |p|
        ensures p[i] != '/'
      {
        assert p[i] == name[i - s - 1];
      }
      SegmentStartAfterSlash(p, s, |p|);
    }
    assert LastDot(p, s + 1, |p|) <= s + 1 by {
      forall j | s + 1 < j < |p|
        ensures p[j] != '.'
      {
        assert p[j] == name[1..][j - s - 2];
      }
    }
  }

  /**
   * A directory whose name has a dot keeps that extension when asked for
   * with a trailing `/`: `/v1.2/` has the extension `.2`.
   */
  lemma ExtnameOfDottedDirectory(dir: string, stem: string, ext: string)
    requires stem != [] && '/' !in stem
    requires |ext| > 1 && ext[0] == '.' && '/' !in ext && '.' !in ext[1..]
    ensures Extname(dir + "/" + stem + ext + "/") == ext
  {
    ExtnameIgnoresTrailingSlash(dir + "/" + stem + ext);
    ExtnameOfFile(dir, stem, ext);
  }

  /** Any file named `index.html` under some directory has the extension `.html`. */
  lemma ExtnameOfIndexFile(dir: string)
    ensures Extname(dir + "/index.html") == ".html"
  {
    assert dir + "/index.html" == dir + "/" + "index" + ".html";
    ExtnameOfFile(dir, "index", ".html");
  }
}
