/**
 * `createSharedImageFileName`: the stored name of a shared image is the
 * sanitised base name, the time in milliseconds, a random number below a
 * million and the extension, joined by `-`. The clock and `Math.random()`
 * are parameters.
 */
module SharedStorage {
  import opened Common
  import opened Strings
  import opened Seqs
  import opened Paths

  const DEFAULT_BASE := "shared-image"
  const DEFAULT_EXTENSION := ".png"

  /** The characters `/[^a-z0-9-_]/gi` does not remove: ASCII letters of either case, digits, `-`, `_`. */
  predicate Kept(c: char) {
    'a' <= c <= 'z' || 'A' <= c <= 'Z' || IsDigit(c) || c == '-' || c == '_'
  }

  /** What a sanitised name is made of. */
  predicate LowerKept(c: char) {
    'a' <= c <= 'z' || IsDigit(c) || c == '-' || c == '_'
  }

  /** `.replace(/[^a-z0-9-_]/gi, '').toLowerCase()`. */
  function Sanitize(s: string): (r: string)
    ensures |r| <= |s|
    ensures forall i :: 0 <= i < |r| ==> LowerKept(r[i])
  {
    LowerAscii(Filter(s, Kept))
  }

  /** `Math.floor(Math.random() * 1e6)` for a draw `0 <= random < 1`. */
  function Draw(random: real): (n: nat)
    requires 0.0 <= random < 1.0
    ensures n < 1000000
  {
    (random * 1000000.0).Floor
  }

  /** The base after sanitising, `|| 'shared-image'`. */
  function StoredBase(baseName: Option<string>): string {
    var clean := Sanitize(baseName.GetOr(DEFAULT_BASE));
    if clean == "" then DEFAULT_BASE else clean
  }

  /** `createSharedImageFileName(baseName, extension)`; `None` is an omitted argument. */
  function CreateSharedImageFileName(baseName: Option<string>, extension: Option<string>, now: nat, random: real): string
    requires 0.0 <= random < 1.0
  {
    StoredBase(baseName) + "-" + NatToString(now) + "-" + NatToString(Draw(random)) + extension.GetOr(DEFAULT_EXTENSION)
  }

  // --------------------------------------------------------------- lemmas

  /** Sanitising works character by character. */
  lemma SanitizeAppend(a: string, b: string)
    ensures Sanitize(a + b) == Sanitize(a) + Sanitize(b)
  {
    FilterAppend(a, b, Kept);
    LowerAsciiAppend(Filter(a, Kept), Filter(b, Kept));
  }

  lemma SanitizeChar(c: char)
    ensures Sanitize([c]) == if Kept(c) then [LowerChar(c)] else []
  {
    assert [c][..0] == [];
  }

  /** Lower-casing first and then keeping `[a-z0-9-_]` gives the same name. */
  lemma {:induction false} SanitizeLowerFirst(s: string)
    ensures Sanitize(s) == Filter(LowerAscii(s), LowerKept)
    decreases |s|
  {
    if s != [] {
      var init := s[..|s| - 1];
      var c := s[|s| - 1];
      var l := LowerAscii(s);
      SanitizeLowerFirst(init);
      assert s == init + [c];
      SanitizeAppend(init, [c]);
      SanitizeChar(c);
      assert l[..|s| - 1] == LowerAscii(init);
      assert l[|s| - 1] == LowerChar(c);
      assert Kept(c) <==> LowerKept(LowerChar(c));
      assert Filter(l, LowerKept) == Filter(l[..|s| - 1], LowerKept) + (if LowerKept(l[|s| - 1]) then [l[|s| - 1]] else []);
    }
  }

  /** A name already made of `[a-z0-9-_]` is left as it is. */
  lemma SanitizeClean(s: string)
    requires forall i :: 0 <= i < |s| ==> LowerKept(s[i])
    ensures Sanitize(s) == s
  {
    FilterAll(s, Kept);
  }

  lemma SanitizeIdempotent(s: string)
    ensures Sanitize(Sanitize(s)) == Sanitize(s)
  {
    SanitizeClean(Sanitize(s));
  }

  /** The stored base is never empty and holds only `[a-z0-9-_]`. */
  lemma StoredBaseShape(baseName: Option<string>)
    ensures var b := StoredBase(baseName);
      |b| > 0 && forall i :: 0 <= i < |b| ==> LowerKept(b[i])
  {
    assert forall i :: 0 <= i < |DEFAULT_BASE| ==> LowerKept(DEFAULT_BASE[i]);
  }

  /** The default base is already clean, so an omitted base name is stored as `shared-image`. */
  lemma DefaultBaseIsClean()
    ensures StoredBase(None) == DEFAULT_BASE && StoredBase(Some(DEFAULT_BASE)) == DEFAULT_BASE
  {
    var d := DEFAULT_BASE;
    assert forall i :: 0 <= i < |d| ==> LowerKept(d[i]);
    SanitizeClean(d);
  }

  /** A base with nothing to keep falls back to the default. */
  lemma NothingKeptFallsBack(baseName: string)
    requires forall i :: 0 <= i < |baseName| ==> !Kept(baseName[i])
    ensures StoredBase(Some(baseName)) == DEFAULT_BASE
  {
    FilterNone(baseName, Kept);
  }

  /** The name before the extension: base, time, draw. */
  function StoredStem(baseName: Option<string>, now: nat, random: real): string
    requires 0.0 <= random < 1.0
  {
    StoredBase(baseName) + "-" + NatToString(now) + "-" + NatToString(Draw(random))
  }

  lemma StemHasNoDotOrSlash(baseName: Option<string>, now: nat, random: real)
    requires 0.0 <= random < 1.0
    ensures var s := StoredStem(baseName, now, random); |s| > 0 && '.' !in s && '/' !in s
  {
    StoredBaseShape(baseName);
    var b := StoredBase(baseName);
    assert '.' !in b && '/' !in b by {
      assert forall i :: 0 <= i < |b| ==> LowerKept(b[i]);
    }
    DigitsHaveNoMarks(NatToString(now));
    DigitsHaveNoMarks(NatToString(Draw(random)));
  }


  lemma ImageExtShaped(ext: string)
    requires ext == ".png" || ext == ".jpg"
    ensures ExtShaped(ext)
  {
    assert ext[1..] == "png" || ext[1..] == "jpg";
  }

  /**
   * With a `.png` or `.jpg` extension the stored name's extension is that
   * one and its parsed name is the stem, so `<name>.html` pairs the page
   * with the image.
   */
  lemma StoredNameExt(baseName: Option<string>, ext: string, now: nat, random: real)
    requires 0.0 <= random < 1.0 && (ext == ".png" || ext == ".jpg")
    ensures var n := CreateSharedImageFileName(baseName, Some(ext), now, random);
      ExtName(n) == ext && ParseName(n) == StoredStem(baseName, now, random)
  {
    var stem := StoredStem(baseName, now, random);
    StemHasNoDotOrSlash(baseName, now, random);
    ImageExtShaped(ext);
    StemThenExt(stem, ext);
  }

  /** Two names for the same base and extension differ when the time or the draw does. */
  lemma StoredNameDistinct(baseName: Option<string>, ext: Option<string>, now: nat, random: real, now': nat, random': real)
    requires 0.0 <= random < 1.0 && 0.0 <= random' < 1.0
    requires CreateSharedImageFileName(baseName, ext, now, random) == CreateSharedImageFileName(baseName, ext, now', random')
    ensures now == now' && Draw(random) == Draw(random')
  {
    var b, e := StoredBase(baseName), ext.GetOr(DEFAULT_EXTENSION);
    var t, d := NatToString(now), NatToString(Draw(random));
    var t', d' := NatToString(now'), NatToString(Draw(random'));
    var n, n' := b + "-" + t + "-" + d + e, b + "-" + t' + "-" + d' + e;
    assert n[..|n| - |e|] == b + "-" + t + "-" + d;
    assert n'[..|n'| - |e|] == b + "-" + t' + "-" + d';
    DigitsHaveNoMarks(t);
    DigitsHaveNoMarks(d);
    DigitsHaveNoMarks(t');
    DigitsHaveNoMarks(d');
    LastSeparatorUnique(b + "-" + t, d, b + "-" + t', d', '-');
    LastSeparatorUnique(b, t, b, t', '-');
    NatToStringInjective(now, now');
    NatToStringInjective(Draw(random), Draw(random'));
  }
}
