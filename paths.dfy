/**
 * The two POSIX path functions the file handlers use on names:
 * `path.extname` and the `name` of `path.parse`. Both look only at the
 * last segment (trailing `/` ignored); its extension runs from its last
 * `.`, except that a segment whose only `.` is its first character, and
 * the segment `..`, have none.
 */
module Paths {
  import opened Strings

  /** The index of the last `c` in `s`, or `-1`. */
  function LastIndexOf(s: string, c: char): (r: int)
    ensures -1 <= r < |s|
    decreases |s|
  {
    if s == [] then -1
    else if s[|s| - 1] == c then |s| - 1
    else LastIndexOf(s[..|s| - 1], c)
  }

  /** `s` without its trailing `/` characters. */
  function TrimTrailingSlashes(s: string): (r: string)
    ensures |r| <= |s|
    decreases |s|
  {
    if s != [] && s[|s| - 1] == '/' then TrimTrailingSlashes(s[..|s| - 1]) else s
  }

  /** The last segment of a path: `path.basename`. */
  function Basename(p: string): string {
    var t := TrimTrailingSlashes(p);
    t[LastIndexOf(t, '/') + 1..]
  }

  /** The extension of one segment. */
  function SegmentExt(b: string): (e: string)
    ensures |e| <= |b|
  {
    var d := LastIndexOf(b, '.');
    if d <= 0 || b == ".." then "" else b[d..]
  }

  /** `path.extname(p)`. */
  function ExtName(p: string): string {
    SegmentExt(Basename(p))
  }

  /** `path.parse(p).name`: the last segment without its extension. */
  function ParseName(p: string): string {
    var b := Basename(p);
    b[..|b| - |SegmentExt(b)|]
  }

  // ------------------------------------------------- what the functions do

  /** The index found holds `c` and no `c` follows it; `-1` means there is none. */
  lemma {:induction false} LastIndexOfSpec(s: string, c: char)
    ensures var r := LastIndexOf(s, c);
      (r >= 0 ==> s[r] == c && c !in s[r + 1..]) && (r == -1 <==> c !in s)
    decreases |s|
  {
    if s != [] && s[|s| - 1] != c {
      var t := s[..|s| - 1];
      LastIndexOfSpec(t, c);
      assert s == t + [s[|s| - 1]];
      var r := LastIndexOf(t, c);
      if r >= 0 {
        assert s[r + 1..] == t[r + 1..] + [s[|s| - 1]];
      }
    }
  }

  /** A `c` with no `c` after it is the last one. */
  lemma {:induction false} LastIndexOfAt(s: string, c: char, k: int)
    requires 0 <= k < |s| && s[k] == c && c !in s[k + 1..]
    ensures LastIndexOf(s, c) == k
    decreases |s|
  {
    if k < |s| - 1 {
      assert s[|s| - 1] in s[k + 1..];
      var t := s[..|s| - 1];
      assert t[k + 1..] <= s[k + 1..];
      LastIndexOfAt(t, c, k);
    }
  }

  /** Trimming removes a run of `/` at the end and nothing else. */
  lemma {:induction false} TrimTrailingSlashesSpec(s: string)
    ensures var r := TrimTrailingSlashes(s);
      r == s[..|r|] && (r == [] || r[|r| - 1] != '/') && forall i :: |r| <= i < |s| ==> s[i] == '/'
    decreases |s|
  {
    if s != [] && s[|s| - 1] == '/' {
      TrimTrailingSlashesSpec(s[..|s| - 1]);
    }
  }

  /** The last segment has no `/`, and a name without `/` is its own last segment. */
  lemma BasenameSpec(p: string)
    ensures '/' !in Basename(p)
    ensures '/' !in p ==> Basename(p) == p
  {
    var t := TrimTrailingSlashes(p);
    TrimTrailingSlashesSpec(p);
    LastIndexOfSpec(t, '/');
    assert |t| < |p| ==> p[|t|] == '/';
    assert |t| == |p| ==> t == p;
  }

  /** An extension is empty or a `.` followed by no `.`, ending a longer segment. */
  lemma SegmentExtSpec(b: string)
    ensures var e := SegmentExt(b);
      e == [] || (e[0] == '.' && '.' !in e[1..] && |e| < |b| && b[|b| - |e|..] == e)
  {
    LastIndexOfSpec(b, '.');
  }

  // --------------------------------------------------------------- lemmas

  /** The name and the extension make up the last segment. */
  lemma ParseNameThenExt(p: string)
    ensures ParseName(p) + ExtName(p) == Basename(p)
    ensures var e := ExtName(p); e == [] || (e[0] == '.' && '.' !in e[1..] && '/' !in e)
  {
    var b := Basename(p);
    var e := SegmentExt(b);
    BasenameSpec(p);
    SegmentExtSpec(b);
    var n := |b| - |e|;
    assert b[..n] + b[n..] == b;
    assert forall i :: 0 <= i < |e| ==> e[i] == b[n + i];
  }

  /** An extension-shaped suffix: empty, or a `.` and then no `.` or `/`. */
  predicate ExtShaped(e: string) {
    e == [] || (e[0] == '.' && '.' !in e[1..] && '/' !in e)
  }

  /**
   * A non-empty stem without `.` or `/`, followed by an extension-shaped
   * suffix: the extension is that suffix and the name is the stem.
   */
  lemma StemThenExt(stem: string, e: string)
    requires |stem| > 0 && '.' !in stem && '/' !in stem && ExtShaped(e)
    ensures ExtName(stem + e) == e && ParseName(stem + e) == stem
  {
    if e == [] {
      assert stem + e == stem;
      BasenameSpec(stem);
      LastIndexOfSpec(stem, '.');
      assert SegmentExt(stem) == "";
    } else {
      var x := e[1..];
      assert e == "." + x;
      assert stem + e == stem + "." + x;
      assert (stem + "." + x)[0] == stem[0];
      ExtFromLastDot(stem, x);
    }
  }


  /** A name without `/` has an extension only if it has a `.`. */
  lemma ExtNeedsDot(p: string)
    ensures '/' !in p && ExtName(p) != "" ==> '.' in p
  {
    BasenameSpec(p);
    LastIndexOfSpec(Basename(p), '.');
  }

  /** Only the last `.` counts: whatever precedes it is the name. */
  lemma ExtFromLastDot(p: string, x: string)
    requires |p| > 0 && '/' !in p && '/' !in x && '.' !in x && p + "." + x != ".."
    ensures ExtName(p + "." + x) == "." + x && ParseName(p + "." + x) == p
  {
    var s := p + "." + x;
    assert s[..|p|] == p && s[|p| + 1..] == x;
    assert '/' !in s by {
      forall i | 0 <= i < |s| ensures s[i] != '/' {
        if i < |p| { assert s[i] == s[..|p|][i]; } else if i > |p| { assert s[i] == s[|p| + 1..][i - |p| - 1]; }
      }
    }
    BasenameSpec(s);
    LastIndexOfAt(s, '.', |p|);
    assert s[|p|..] == "." + x;
    assert SegmentExt(s) == "." + x;
  }

  /** A name whose only `.` is its first character has no extension. */
  lemma DotfileHasNoExt(x: string)
    requires '/' !in x && '.' !in x
    ensures ExtName("." + x) == "" && ParseName("." + x) == "." + x
  {
    var s := "." + x;
    assert s[1..] == x;
    assert '/' !in s;
    BasenameSpec(s);
    LastIndexOfAt(s, '.', 0);
    assert SegmentExt(s) == "";
  }
}
