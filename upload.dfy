/**
 * The upload middleware for order attachments: a file filter that admits
 * images and PDFs by extension and MIME type, the name each stored file
 * is given, and the size limit. The clock and the random draw are
 * parameters.
 */
module Upload {
  import opened Common
  import opened Strings
  import opened Paths

  /** The alternatives of the filter's pattern `jpeg|jpg|png|gif|pdf`. */
  const FILE_TYPES: seq<string> := ["jpeg", "jpg", "png", "gif", "pdf"]
  const FILE_TYPE_ERROR := "Error: PDFs and Images Only!"
  /** `limits.fileSize`, in bytes. */
  const MAX_FILE_SIZE: nat := 10000000
  /** The directory files are written to. */
  const UPLOAD_DIR := "./public/uploads/"

  /** What Multer knows of an incoming file part. */
  datatype IncomingFile = IncomingFile(originalName: string, mimeType: string, size: nat)

  /** The unanchored pattern `/jpeg|jpg|png|gif|pdf/` tested on `s`. */
  predicate FileTypesTest(s: string) {
    Contains(s, "jpeg") || Contains(s, "jpg") || Contains(s, "png") || Contains(s, "gif") || Contains(s, "pdf")
  }

  /** One of the pattern's alternatives occurs somewhere in `s`. */
  ghost predicate HasFileTypeWord(s: string) {
    exists k, i :: 0 <= k < |FILE_TYPES| && OccursAt(s, FILE_TYPES[k], i)
  }

  datatype Verdict = Accepted | Rejected(error: string)

  /** `checkFileType`: the lower-cased extension and the raw MIME type must both match. */
  function CheckFileType(originalName: string, mimeType: string): Verdict {
    if FileTypesTest(mimeType) && FileTypesTest(LowerAscii(ExtName(originalName))) then Accepted
    else Rejected(FILE_TYPE_ERROR)
  }

  /** `Math.floor(100000 + Math.random() * 900000)`. */
  function Suffix(random: real): (n: nat)
    requires 0.0 <= random < 1.0
    ensures 100000 <= n <= 999999
  {
    (100000.0 + random * 900000.0).Floor
  }

  /** `'image'` when the MIME type starts with `image`, otherwise `'pdf'`. */
  function FileKind(mimeType: string): string {
    if "image" <= mimeType then "image" else "pdf"
  }

  /** The storage `filename` callback: kind, timestamp and suffix, then the original extension. */
  function UploadFileName(f: IncomingFile, now: nat, random: real): string
    requires 0.0 <= random < 1.0
  {
    FileKind(f.mimeType) + "-" + NatToString(now) + "-" + NatToString(Suffix(random)) + ExtName(f.originalName)
  }

  /** What becomes of one file part: refused by the filter, over the limit, or stored under its new name. */
  datatype UploadResult = Refused(error: string) | TooLarge | Stored(fileName: string)

  /**
   * The filter runs first; a file that passes is streamed to disk, and one
   * longer than the limit is aborted with Multer's file-size error.
   */
  function UploadOutcome(f: IncomingFile, now: nat, random: real): UploadResult
    requires 0.0 <= random < 1.0
  {
    match CheckFileType(f.originalName, f.mimeType)
    case Rejected(e) => Refused(e)
    case Accepted =>
      if f.size > MAX_FILE_SIZE then TooLarge else Stored(UploadFileName(f, now, random))
  }

  // --------------------------------------------------------------- lemmas

  /** The pattern matches exactly when one of its words occurs in the string. */
  lemma FileTypesTestIff(s: string)
    ensures FileTypesTest(s) <==> HasFileTypeWord(s)
  {
    ContainsIff(s, "jpeg");
    ContainsIff(s, "jpg");
    ContainsIff(s, "png");
    ContainsIff(s, "gif");
    ContainsIff(s, "pdf");
    if HasFileTypeWord(s) {
      var k, i :| 0 <= k < |FILE_TYPES| && OccursAt(s, FILE_TYPES[k], i);
      assert OccursAt(s, FILE_TYPES[k], i);
    }
    if Contains(s, "jpeg") {
      var i :| OccursAt(s, "jpeg", i);
      assert OccursAt(s, FILE_TYPES[0], i);
    } else if Contains(s, "jpg") {
      var i :| OccursAt(s, "jpg", i);
      assert OccursAt(s, FILE_TYPES[1], i);
    } else if Contains(s, "png") {
      var i :| OccursAt(s, "png", i);
      assert OccursAt(s, FILE_TYPES[2], i);
    } else if Contains(s, "gif") {
      var i :| OccursAt(s, "gif", i);
      assert OccursAt(s, FILE_TYPES[3], i);
    } else if Contains(s, "pdf") {
      var i :| OccursAt(s, "pdf", i);
      assert OccursAt(s, FILE_TYPES[4], i);
    }
  }

  /**
   * A file is accepted exactly when a word of the pattern occurs in its
   * lower-cased extension and one occurs in its MIME type; otherwise it is
   * refused with the filter's message.
   */
  lemma CheckFileTypeSpec(originalName: string, mimeType: string)
    ensures var v := CheckFileType(originalName, mimeType);
      (v == Accepted <==> HasFileTypeWord(LowerAscii(ExtName(originalName))) && HasFileTypeWord(mimeType)) &&
      (v != Accepted ==> v == Rejected(FILE_TYPE_ERROR))
  {
    FileTypesTestIff(LowerAscii(ExtName(originalName)));
    FileTypesTestIff(mimeType);
  }

  /** No word of the pattern fits in a string of fewer than three characters. */
  lemma ShortHasNoWord(s: string)
    requires |s| < 3
    ensures !HasFileTypeWord(s)
  {
    FileTypesTestIff(s);
    assert forall k :: 0 <= k < |FILE_TYPES| ==> |FILE_TYPES[k]| >= 3;
  }

  /** A name with no `.` has no extension, so it is refused whatever its MIME type. */
  lemma NoExtensionRejected(originalName: string, mimeType: string)
    requires '.' !in originalName && '/' !in originalName
    ensures ExtName(originalName) == ""
    ensures CheckFileType(originalName, mimeType) == Rejected(FILE_TYPE_ERROR)
  {
    ExtNeedsDot(originalName);
    ShortHasNoWord(LowerAscii(""));
    FileTypesTestIff(LowerAscii(""));
  }

  /** Lower-casing a `.` and then an extension without marks keeps the `.` and adds no mark. */
  lemma LowerDotted(x: string)
    requires '.' !in x && '/' !in x
    ensures LowerAscii("." + x) == "." + LowerAscii(x)
    ensures '.' !in LowerAscii(x) && '/' !in LowerAscii(x)
  {
    LowerAsciiAppend(".", x);
    assert LowerAscii(".") == ".";
    LowerAsciiKeeps(x, '.');
    LowerAsciiKeeps(x, '/');
  }

  /** An extension and its lower-cased form lower-case alike. */
  lemma LowerExtSame(x: string)
    requires '.' !in x && '/' !in x
    ensures LowerAscii("." + x) == LowerAscii("." + LowerAscii(x))
  {
    LowerDotted(x);
    LowerDotted(LowerAscii(x));
    LowerAsciiIdempotent(x);
  }

  /** The extension is compared without regard to ASCII case: `a.PDF` and `a.pdf` are treated alike. */
  lemma ExtensionCaseDoesNotMatter(stem: string, x: string, mimeType: string)
    requires |stem| > 0 && '/' !in stem && '.' !in x && '/' !in x && stem + "." + x != ".."
    ensures CheckFileType(stem + "." + x, mimeType) == CheckFileType(stem + "." + LowerAscii(x), mimeType)
  {
    var lx := LowerAscii(x);
    var n, ln := stem + "." + x, stem + "." + lx;
    LowerDotted(x);
    if x == [] {
      assert lx == x;
    } else {
      ExtFromLastDot(stem, x);
      assert |ln| >= 3;
      ExtFromLastDot(stem, lx);
      LowerExtSame(x);
      calc {
        LowerAscii(ExtName(n));
        LowerAscii("." + x);
        LowerAscii("." + lx);
        LowerAscii(ExtName(ln));
      }
    }
    SameLoweredExt(n, ln, mimeType);
  }

  /** The filter sees a name only through its lower-cased extension. */
  lemma SameLoweredExt(n: string, n': string, mimeType: string)
    requires LowerAscii(ExtName(n)) == LowerAscii(ExtName(n'))
    ensures CheckFileType(n, mimeType) == CheckFileType(n', mimeType)
  {
  }

  /** The first letter of each word of the pattern is a lower-case ASCII letter. */
  lemma WordStartsLower(s: string, k: int, i: int)
    requires 0 <= k < |FILE_TYPES|
    ensures OccursAt(s, FILE_TYPES[k], i) ==> 0 <= i < |s| && 'a' <= s[i] <= 'z'
  {
    if OccursAt(s, FILE_TYPES[k], i) {
      assert s[i] == s[i..i + |FILE_TYPES[k]|][0];
    }
  }

  /**
   * The MIME type is compared as it is: one without a lower-case ASCII
   * letter, such as `IMAGE/PNG`, is refused whatever the extension.
   */
  lemma UpperCaseMimeRejected(originalName: string, mimeType: string)
    requires forall i :: 0 <= i < |mimeType| ==> !('a' <= mimeType[i] <= 'z')
    ensures CheckFileType(originalName, mimeType) == Rejected(FILE_TYPE_ERROR)
  {
    forall k, i | 0 <= k < |FILE_TYPES| ensures !OccursAt(mimeType, FILE_TYPES[k], i) {
      WordStartsLower(mimeType, k, i);
    }
    FileTypesTestIff(mimeType);
  }

  /** The random suffix always has six digits. */
  lemma SuffixHasSixDigits(random: real)
    requires 0.0 <= random < 1.0
    ensures |NatToString(Suffix(random))| == 6
  {
    assert Pow10(5) == 100000 && Pow10(6) == 1000000;
    NatToStringLength(Suffix(random), 5);
  }

  /** The stem of a stored name: the kind, the timestamp and the suffix. */
  function UploadStem(f: IncomingFile, now: nat, random: real): string
    requires 0.0 <= random < 1.0
  {
    FileKind(f.mimeType) + "-" + NatToString(now) + "-" + NatToString(Suffix(random))
  }

  /**
   * A stored name keeps the original extension and nothing else of the
   * original name: its extension is the original's and its stem is the
   * kind, the timestamp and the suffix.
   */
  lemma UploadNameShape(f: IncomingFile, now: nat, random: real)
    requires 0.0 <= random < 1.0
    ensures var n := UploadFileName(f, now, random);
      ExtName(n) == ExtName(f.originalName) && ParseName(n) == UploadStem(f, now, random)
  {
    var stem := UploadStem(f, now, random);
    var t, d := NatToString(now), NatToString(Suffix(random));
    DigitsHaveNoMarks(t);
    DigitsHaveNoMarks(d);
    var k := FileKind(f.mimeType);
    assert '.' !in k && '/' !in k;
    assert forall c :: c in stem ==> c in k || c == '-' || c in t || c in d;
    ParseNameThenExt(f.originalName);
    StemThenExt(stem, ExtName(f.originalName));
  }

  /** The kind is `image` exactly when the MIME type starts with `image`, and `pdf` otherwise. */
  lemma UploadKindIff(f: IncomingFile, now: nat, random: real)
    requires 0.0 <= random < 1.0
    ensures var n := UploadFileName(f, now, random);
      ("image-" <= n <==> "image" <= f.mimeType) && (!("image" <= f.mimeType) ==> "pdf-" <= n)
  {
    var n := UploadFileName(f, now, random);
    var k := FileKind(f.mimeType);
    assert n[..|k| + 1] == k + "-";
    if !("image" <= f.mimeType) {
      assert n[0] == 'p';
    }
  }

  /** Two files of one kind and extension get one name only when the timestamp and the suffix agree. */
  lemma UploadNameDistinct(f: IncomingFile, g: IncomingFile, now: nat, random: real, now': nat, random': real)
    requires 0.0 <= random < 1.0 && 0.0 <= random' < 1.0
    requires FileKind(f.mimeType) == FileKind(g.mimeType) && ExtName(f.originalName) == ExtName(g.originalName)
    requires UploadFileName(f, now, random) == UploadFileName(g, now', random')
    ensures now == now' && Suffix(random) == Suffix(random')
  {
    var b, e := FileKind(f.mimeType), ExtName(f.originalName);
    var t, d := NatToString(now), NatToString(Suffix(random));
    var t', d' := NatToString(now'), NatToString(Suffix(random'));
    var n, n' := b + "-" + t + "-" + d + e, b + "-" + t' + "-" + d' + e;
    assert n[..|n| - |e|] == b + "-" + t + "-" + d;
    assert n'[..|n'| - |e|] == b + "-" + t' + "-" + d';
    DigitsHaveNoMarks(t);
    DigitsHaveNoMarks(d);
    DigitsHaveNoMarks(t');
    DigitsHaveNoMarks(d');
    LastSeparatorUnique(b + "-" + t, d, b + "-" + t', d', '-');
    LastSeparatorUnique(b, t, b, t', '-');
    NatToStringInjective(now, now');
    NatToStringInjective(Suffix(random), Suffix(random'));
  }

  /**
   * A file is stored exactly when it passes the filter and is within the
   * limit, and then under its new name; a filtered file gets the filter's
   * message, and the size is looked at only after the filter.
   */
  lemma UploadOutcomeSpec(f: IncomingFile, now: nat, random: real)
    requires 0.0 <= random < 1.0
    ensures var r := UploadOutcome(f, now, random);
      (r.Stored? <==> CheckFileType(f.originalName, f.mimeType) == Accepted && f.size <= MAX_FILE_SIZE) &&
      (r.Stored? ==> r.fileName == UploadFileName(f, now, random)) &&
      (r.Refused? <==> CheckFileType(f.originalName, f.mimeType) != Accepted) &&
      (r.Refused? ==> r.error == FILE_TYPE_ERROR) &&
      (r == TooLarge <==> CheckFileType(f.originalName, f.mimeType) == Accepted && f.size > MAX_FILE_SIZE)
  {
  }
}
