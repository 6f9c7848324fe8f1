/**
 * `saveSharedImage`: a signed-in user posts an image as a `data:` URI; the
 * image is stored under a fresh sanitised name, a preview page that points
 * at it is written beside it, and the reply gives both URLs and the time
 * the share expires. The request's protocol and host, the clock and the
 * random draw are parameters.
 */
module ShareController {
  import opened Common
  import opened Strings
  import opened Paths
  import opened SharedStorage
  import opened SharedDirs
  import opened SharedCleanup

  const IMAGE_REQUIRED := "imageBase64 is required"
  const INVALID_IMAGE := "Invalid image data"
  const IMAGES_URL := "/public/shared-images/"
  const PAGES_URL := "/public/shared-pages/"

  /** `resolveExtension`: `.jpg` for the two JPEG types, `.png` for every other type. */
  function ResolveExtension(mimeType: string): (ext: string)
    ensures ext == ".jpg" <==> mimeType == "image/jpeg" || mimeType == "image/jpg"
    ensures ext == ".jpg" || ext == ".png"
  {
    if mimeType == "image/jpeg" || mimeType == "image/jpg" then ".jpg" else ".png"
  }

  // ------------------------------------------------------------- data URI

  /** The class `[a-zA-Z0-9.+-]` of the MIME subtype. */
  predicate SubtypeChar(c: char) {
    'a' <= c <= 'z' || 'A' <= c <= 'Z' || IsDigit(c) || c == '.' || c == '+' || c == '-'
  }

  predicate AllSubtypeChars(s: string) {
    forall i :: 0 <= i < |s| ==> SubtypeChar(s[i])
  }

  /** What `.` matches without the `s` flag: anything but a line terminator. */
  predicate LineChar(c: char) {
    c != '\n' && c != '\r' && c != '\U{2028}' && c != '\U{2029}'
  }

  predicate AllLineChars(s: string) {
    forall i :: 0 <= i < |s| ==> LineChar(s[i])
  }

  /** The length of the longest run of subtype characters at the start of `s`. */
  function SubtypeRun(s: string): (n: nat)
    ensures n <= |s|
    decreases |s|
  {
    if s == [] || !SubtypeChar(s[0]) then 0 else 1 + SubtypeRun(s[1..])
  }

  const DATA_PREFIX := "data:image/"
  const BASE64_MARK := ";base64,"

  /**
   * `imageBase64.match(/^data:(image\/[a-zA-Z0-9.+-]+);base64,(.+)$/)`: the
   * MIME type and the data, or `None`. The `+` is greedy and `;` is not in
   * the class, so the type ends exactly at the end of the run of subtype
   * characters, where `;base64,` must follow.
   */
  function MatchDataUri(s: string): Option<(string, string)> {
    if !(DATA_PREFIX <= s) then None
    else
      var rest := s[|DATA_PREFIX|..];
      var n := SubtypeRun(rest);
      var after := rest[n..];
      if n == 0 || !(BASE64_MARK <= after) then None
      else
        var data := after[|BASE64_MARK|..];
        if data == [] || !AllLineChars(data) then None
        else Some(("image/" + rest[..n], data))
  }

  /** A well-formed data URI of subtype `t` and payload `d`. */
  function DataUri(t: string, d: string): string {
    DATA_PREFIX + t + BASE64_MARK + d
  }

  /** The run of subtype characters stops at the first character outside the class. */
  lemma {:induction false} SubtypeRunOf(t: string, u: string)
    requires AllSubtypeChars(t) && (u == [] || !SubtypeChar(u[0]))
    ensures SubtypeRun(t + u) == |t|
    decreases |t|
  {
    if t == [] {
      assert t + u == u;
    } else {
      assert (t + u)[1..] == t[1..] + u;
      SubtypeRunOf(t[1..], u);
    }
  }

  lemma {:induction false} SubtypeRunSpec(s: string)
    ensures var n := SubtypeRun(s); AllSubtypeChars(s[..n]) && (n < |s| ==> !SubtypeChar(s[n]))
    decreases |s|
  {
    if s != [] && SubtypeChar(s[0]) {
      SubtypeRunSpec(s[1..]);
      var n := SubtypeRun(s);
      assert s[..n] == [s[0]] + s[1..][..n - 1];
    }
  }

  /** Every data URI with a non-empty subtype and a non-empty single-line payload is accepted. */
  lemma MatchDataUriComplete(t: string, d: string)
    requires |t| > 0 && AllSubtypeChars(t) && |d| > 0 && AllLineChars(d)
    ensures MatchDataUri(DataUri(t, d)) == Some(("image/" + t, d))
  {
    var s := DataUri(t, d);
    var rest := t + BASE64_MARK + d;
    assert s == DATA_PREFIX + rest;
    assert s[|DATA_PREFIX|..] == rest;
    SubtypeRunOf(t, BASE64_MARK + d);
    assert rest == t + (BASE64_MARK + d);
    assert rest[..|t|] == t;
    assert rest[|t|..] == BASE64_MARK + d;
    assert (BASE64_MARK + d)[|BASE64_MARK|..] == d;
  }

  /** Everything accepted is such a data URI, and the match returns its parts. */
  lemma MatchDataUriSound(s: string)
    requires MatchDataUri(s).Some?
    ensures var (mime, d) := MatchDataUri(s).value;
      exists t :: |t| > 0 && AllSubtypeChars(t) && mime == "image/" + t &&
                  |d| > 0 && AllLineChars(d) && s == DataUri(t, d)
  {
    var rest := s[|DATA_PREFIX|..];
    var n := SubtypeRun(rest);
    SubtypeRunSpec(rest);
    var t := rest[..n];
    var after := rest[n..];
    var d := after[|BASE64_MARK|..];
    assert MatchDataUri(s).value == ("image/" + t, d);
    assert after == after[..|BASE64_MARK|] + d;
    assert rest == t + after;
    assert s == s[..|DATA_PREFIX|] + rest;
    assert s == DataUri(t, d);
  }

  /** The accepted type is always `image/...`; the data URI is rejected without `;base64,` after the subtype. */
  lemma AcceptedMimeIsImage(s: string)
    requires MatchDataUri(s).Some?
    ensures "image/" <= MatchDataUri(s).value.0
    ensures ResolveExtension(MatchDataUri(s).value.0) == ".jpg" ==> s[..|DATA_PREFIX| + 3] == "data:image/jpe" || s[..|DATA_PREFIX| + 3] == "data:image/jpg"
  {
    var rest := s[|DATA_PREFIX|..];
    var n := SubtypeRun(rest);
    var mime := "image/" + rest[..n];
    assert mime[..6] == "image/";
    if mime == "image/jpeg" || mime == "image/jpg" {
      assert rest[..3] == mime[6..9];
      assert s[..|DATA_PREFIX| + 3] == DATA_PREFIX + rest[..3];
    }
  }

  // ----------------------------------------------------------- share page

  // The template, line by line; each fixed part ends where a URL attribute begins.
  const PAGE_HEAD := Join([
    "<!DOCTYPE html>",
    "<html lang=\"en\">",
    "  <head>",
    "    <meta charset=\"utf-8\" />",
    "    <title>Shared Image Preview</title>",
    "    <meta property=\"og:title\" content=\"Shared Image\" />",
    "    <meta property=\"og:description\" content=\"Tap to view the shared image.\" />",
    "    <meta property=\"og:image\" "], '\n')

  const PAGE_META := Join([
    " />",
    "    <meta property=\"og:type\" content=\"article\" />",
    "    <meta name=\"twitter:card\" content=\"summary_large_image\" />",
    "    <meta http-equiv=\"refresh\" "], '\n')

  const PAGE_STYLE := Join([
    " />",
    "    <style>",
    "      body {",
    "        margin: 0;",
    "        min-height: 100vh;",
    "        display: flex;",
    "        flex-direction: column;",
    "        align-items: center;",
    "        justify-content: center;",
    "        gap: 2rem;",
    "        background: #0f172a;",
    "        color: #e2e8f0;",
    "        font-family: system-ui, -apple-system, BlinkMacSystemFont, 'Segoe UI', sans-serif;",
    "      }",
    "      img {",
    "        max-width: 90vw;",
    "        max-height: 70vh;",
    "        border-radius: 14px;",
    "        box-shadow: 0 24px 60px rgba(15, 23, 42, 0.45);",
    "      }",
    "      a {",
    "        color: #38bdf8;",
    "        font-weight: 600;",
    "        text-decoration: none;",
    "      }",
    "    </style>",
    "  </head>",
    "  <body>",
    "    <img "], '\n')

  const PAGE_LINK := Join([
    " alt=\"Shared preview\" />",
    "    <a "], '\n')

  const PAGE_TAIL := Join([
    ">Open full image</a>",
    "  </body>",
    "</html>"], '\n')

  /** An HTML attribute `name="value"`. */
  function Attr(name: string, value: string): (r: string)
    ensures |r| == |name| + |value| + 3
  {
    name + "=\"" + value + "\""
  }

  /** The pieces of text written one after another. */
  function Concat(cs: seq<string>): string
    decreases |cs|
  {
    if cs == [] then "" else cs[0] + Concat(cs[1..])
  }

  /** Where piece `k` of `Concat(cs)` starts. */
  function Offset(cs: seq<string>, k: nat): nat
    requires k <= |cs|
  {
    |Concat(cs[..k])|
  }

  /** The fixed parts of the template, in order. */
  const SHARE_TEMPLATE := [PAGE_HEAD, PAGE_META, PAGE_STYLE, PAGE_LINK, PAGE_TAIL]

  /**
   * A page of template `t`: its fixed parts with the URL as the `og:image`
   * content, as the refresh target after five seconds, as the `<img>`
   * source and as the link target.
   */
  function PageChunks(t: seq<string>, imageUrl: string): seq<string>
    requires |t| == 5
  {
    [t[0], Attr("content", imageUrl), t[1], Attr("content", "5;url=" + imageUrl),
     t[2], Attr("src", imageUrl), t[3], Attr("href", imageUrl), t[4]]
  }

  /** `buildSharePageHtml({ imageUrl })`. */
  function BuildSharePageHtml(imageUrl: string): string {
    Concat(PageChunks(SHARE_TEMPLATE, imageUrl))
  }

  lemma {:induction false} ConcatSplit(cs: seq<string>, k: nat)
    requires k <= |cs|
    ensures Concat(cs) == Concat(cs[..k]) + Concat(cs[k..])
    decreases k
  {
    if k > 0 {
      ConcatSplit(cs[1..], k - 1);
      assert cs[1..][..k - 1] == cs[..k][1..];
      assert cs[1..][k - 1..] == cs[k..];
    } else {
      assert cs[..0] == [] && cs[0..] == cs;
    }
  }

  /** A string that begins with `pre + x` has `x` at `|pre|`. */
  lemma PrefixAt(pre: string, x: string, s: string)
    requires pre + x <= s
    ensures OccursAt(s, x, |pre|)
  {
    assert s[|pre|..|pre| + |x|] == (pre + x)[|pre|..];
  }

  /** The next piece starts right after piece `k`, and the last offset is the end. */
  lemma OffsetStep(cs: seq<string>, k: nat)
    requires k < |cs|
    ensures Offset(cs, k + 1) == Offset(cs, k) + |cs[k]|
    ensures Offset(cs, |cs|) == |Concat(cs)|
  {
    ConcatSplit(cs[..k + 1], k);
    assert cs[..k + 1][..k] == cs[..k];
    assert cs[..k + 1][k..] == [cs[k]];
    assert Concat([cs[k]]) == cs[k] by {
      assert [cs[k]][1..] == [];
    }
    assert cs[..|cs|] == cs;
  }

  /** Piece `k` sits at its offset, and the next piece starts right after it. */
  lemma ChunkAt(cs: seq<string>, k: nat)
    requires k < |cs|
    ensures OccursAt(Concat(cs), cs[k], Offset(cs, k))
    ensures Offset(cs, k + 1) == Offset(cs, k) + |cs[k]|
    ensures Offset(cs, |cs|) == |Concat(cs)|
  {
    ConcatSplit(cs, k);
    assert cs[k..] == [cs[k]] + cs[k + 1..];
    assert Concat(cs[k..]) == cs[k] + Concat(cs[k + 1..]);
    PrefixAt(Concat(cs[..k]), cs[k], Concat(cs));
    OffsetStep(cs, k);
  }

  /** Every piece of `Concat(cs)` at its offset, each right after the previous one. */
  lemma ConcatLayout(cs: seq<string>)
    ensures forall k :: 0 <= k < |cs| ==> OccursAt(Concat(cs), cs[k], Offset(cs, k))
    ensures forall k :: 0 <= k < |cs| ==> Offset(cs, k + 1) == Offset(cs, k) + |cs[k]|
    ensures Offset(cs, 0) == 0 && Offset(cs, |cs|) == |Concat(cs)|
  {
    forall k | 0 <= k < |cs|
      ensures OccursAt(Concat(cs), cs[k], Offset(cs, k)) && Offset(cs, k + 1) == Offset(cs, k) + |cs[k]|
    {
      ChunkAt(cs, k);
    }
    assert cs[..0] == [] && cs[..|cs|] == cs;
  }

  /** A page is as long as its fixed parts plus four copies of the URL and the attribute text around them. */
  lemma PageLength(t: seq<string>, u: string)
    requires |t| == 5
    ensures |Concat(PageChunks(t, u))| == |t[0]| + |t[1]| + |t[2]| + |t[3]| + |t[4]| + 4 * |u| + 39
  {
    var cs := PageChunks(t, u);
    ChunkAt(cs, 0);
    ChunkAt(cs, 1);
    ChunkAt(cs, 2);
    ChunkAt(cs, 3);
    ChunkAt(cs, 4);
    ChunkAt(cs, 5);
    ChunkAt(cs, 6);
    ChunkAt(cs, 7);
    ChunkAt(cs, 8);
    assert cs[..0] == [];
  }

  /** Pages of one template are equal only for the same URL. */
  lemma PageInjective(t: seq<string>, u: string, v: string)
    requires |t| == 5 && Concat(PageChunks(t, u)) == Concat(PageChunks(t, v))
    ensures u == v
  {
    var cu, cv := PageChunks(t, u), PageChunks(t, v);
    PageLength(t, u);
    PageLength(t, v);
    ChunkAt(cu, 1);
    ChunkAt(cv, 1);
    ChunkAt(cu, 0);
    ChunkAt(cv, 0);
    assert cu[..0] == [] && cv[..0] == [];
    var html := Concat(cu);
    var p := |t[0]|;
    assert html[p..p + |cu[1]|] == Attr("content", u) && html[p..p + |cv[1]|] == Attr("content", v);
    assert Attr("content", u)[9..9 + |u|] == u;
    assert Attr("content", v)[9..9 + |v|] == v;
  }

  /**
   * The share page is its nine pieces laid out one after another: the
   * fixed parts of the template, and the URL in its four attributes.
   */
  lemma PageEmbedsUrl(imageUrl: string)
    ensures var html := BuildSharePageHtml(imageUrl);
      var cs := PageChunks(SHARE_TEMPLATE, imageUrl);
      (forall k :: 0 <= k < 9 ==> OccursAt(html, cs[k], Offset(cs, k))) &&
      (forall k :: 0 <= k < 9 ==> Offset(cs, k + 1) == Offset(cs, k) + |cs[k]|) &&
      Offset(cs, 0) == 0 && Offset(cs, 9) == |html|
  {
    ConcatLayout(PageChunks(SHARE_TEMPLATE, imageUrl));
  }

  /** Different URLs give different pages: the URL can be read back from the page. */
  lemma PageDeterminesUrl(u: string, v: string)
    requires BuildSharePageHtml(u) == BuildSharePageHtml(v)
    ensures u == v
  {
    PageInjective(SHARE_TEMPLATE, u, v);
  }

  // ----------------------------------------------------------------- save

  /** The request body fields; `None` is an absent or non-string value. */
  datatype ShareBody = ShareBody(imageBase64: Option<string>, fileName: Option<string>)

  /** The 201 reply; `expiresAt` is the expiry time in milliseconds. */
  datatype ShareReply = ShareReply(
    imageUrl: string, directImageUrl: string, shareUrl: string, fileName: string, expiresAt: int, ttlDays: nat)

  /** `fileName || 'shared-image'`. */
  function RequestedBase(body: ShareBody): string {
    if Truthy(body.fileName) then body.fileName.value else DEFAULT_BASE
  }

  /** `${req.protocol}://${req.get('host')}`. */
  function Origin(protocol: string, host: string): string {
    protocol + "://" + host
  }

  /** The name a save with `body` stores its image under, for an accepted `mimeType`. */
  function StoredName(body: ShareBody, mimeType: string, now: nat, random: real): string
    requires 0.0 <= random < 1.0
  {
    CreateSharedImageFileName(Some(RequestedBase(body)), Some(ResolveExtension(mimeType)), now, random)
  }

  /** The reply and both directories once the image is stored as `stored`. */
  function Saved(images: seq<DirEntry>, pages: map<string, string>, stored: string, origin: string, now: nat)
    : (Response<ShareReply>, seq<DirEntry>, map<string, string>)
    requires UniqueNames(images)
  {
    var imageUrl := IMAGES_URL + stored;
    var directUrl := origin + imageUrl;
    var page := PageName(stored);
    (Success(201, ShareReply(imageUrl, directUrl, origin + (PAGES_URL + page), stored, now + SHARE_TTL_MS, SHARE_TTL_DAYS)),
     WriteEntry(images, stored, now),
     pages[page := BuildSharePageHtml(directUrl)])
  }

  /** The reply and both directories after `saveSharedImage`. */
  function SaveOutcome(images: seq<DirEntry>, pages: map<string, string>, body: ShareBody,
                       protocol: string, host: string, now: nat, random: real)
    : (Response<ShareReply>, seq<DirEntry>, map<string, string>)
    requires UniqueNames(images) && 0.0 <= random < 1.0
  {
    if !Truthy(body.imageBase64) then (Failure(400, IMAGE_REQUIRED), images, pages)
    else
      var m := MatchDataUri(body.imageBase64.value);
      if m.None? then (Failure(400, INVALID_IMAGE), images, pages)
      else Saved(images, pages, StoredName(body, m.value.0, now, random), Origin(protocol, host), now)
  }

  /** `saveSharedImage` on the two directories. */
  method SaveSharedImage(dirs: SharedDirectories, body: ShareBody, protocol: string, host: string, now: nat, random: real)
    returns (r: Response<ShareReply>)
    requires dirs.Valid() && 0.0 <= random < 1.0
    modifies dirs
    ensures dirs.Valid()
    ensures (r, dirs.images, dirs.pages) == SaveOutcome(old(dirs.images), old(dirs.pages), body, protocol, host, now, random)
  {
    if !Truthy(body.imageBase64) {
      return Failure(400, IMAGE_REQUIRED);
    }
    var m := MatchDataUri(body.imageBase64.value);
    if m.None? {
      return Failure(400, INVALID_IMAGE);
    }
    var (mimeType, _) := m.value;
    var stored := CreateSharedImageFileName(Some(RequestedBase(body)), Some(ResolveExtension(mimeType)), now, random);
    dirs.images := WriteEntry(dirs.images, stored, now);
    var imageUrl := IMAGES_URL + stored;
    var directUrl := Origin(protocol, host) + imageUrl;
    var page := PageName(stored);
    dirs.pages := dirs.pages[page := BuildSharePageHtml(directUrl)];
    r := Success(201, ShareReply(imageUrl, directUrl, Origin(protocol, host) + (PAGES_URL + page), stored,
                                 now + SHARE_TTL_MS, SHARE_TTL_DAYS));
  }

  // --------------------------------------------------------------- lemmas

  /** The two 400 replies, each exactly on its condition, and neither touches a directory. */
  lemma SaveRejections(images: seq<DirEntry>, pages: map<string, string>, body: ShareBody,
                       protocol: string, host: string, now: nat, random: real)
    requires UniqueNames(images) && 0.0 <= random < 1.0
    ensures var (r, images', pages') := SaveOutcome(images, pages, body, protocol, host, now, random);
      (r == Failure(400, IMAGE_REQUIRED) <==> !Truthy(body.imageBase64)) &&
      (r == Failure(400, INVALID_IMAGE) <==> Truthy(body.imageBase64) && MatchDataUri(body.imageBase64.value).None?) &&
      (r.Failure? ==> images' == images && pages' == pages) &&
      (r.Success? <==> Truthy(body.imageBase64) && MatchDataUri(body.imageBase64.value).Some?)
  {
  }

  /** An accepted request is saved under the stored name for its type. */
  lemma AcceptedIsSaved(images: seq<DirEntry>, pages: map<string, string>, body: ShareBody,
                        protocol: string, host: string, now: nat, random: real)
    requires UniqueNames(images) && 0.0 <= random < 1.0
    requires Truthy(body.imageBase64) && MatchDataUri(body.imageBase64.value).Some?
    ensures SaveOutcome(images, pages, body, protocol, host, now, random) ==
            Saved(images, pages, StoredName(body, MatchDataUri(body.imageBase64.value).value.0, now, random),
                  Origin(protocol, host), now)
  {
  }

  lemma StoredNameIsStemAndExt(body: ShareBody, mimeType: string, now: nat, random: real)
    requires 0.0 <= random < 1.0
    ensures StoredName(body, mimeType, now, random) ==
            StoredStem(Some(RequestedBase(body)), now, random) + ResolveExtension(mimeType)
  {
  }

  lemma StoredNameExtension(body: ShareBody, mimeType: string, now: nat, random: real)
    requires 0.0 <= random < 1.0
    ensures ExtName(StoredName(body, mimeType, now, random)) == ResolveExtension(mimeType)
  {
    StoredNameExt(Some(RequestedBase(body)), ResolveExtension(mimeType), now, random);
  }

  lemma StoredPageName(body: ShareBody, mimeType: string, now: nat, random: real)
    requires 0.0 <= random < 1.0
    ensures PageName(StoredName(body, mimeType, now, random)) == StoredStem(Some(RequestedBase(body)), now, random) + ".html"
  {
    StoredNameExt(Some(RequestedBase(body)), ResolveExtension(mimeType), now, random);
  }

  /**
   * The stored name is the stem followed by the extension of the type, so
   * its extension is that of the type, and the page is named after the
   * same stem.
   */
  lemma StoredNameShape(body: ShareBody, mimeType: string, now: nat, random: real)
    requires 0.0 <= random < 1.0
    ensures var stored := StoredName(body, mimeType, now, random);
      var stem := StoredStem(Some(RequestedBase(body)), now, random);
      stored == stem + ResolveExtension(mimeType) &&
      ExtName(stored) == ResolveExtension(mimeType) &&
      PageName(stored) == stem + ".html"
  {
    StoredNameIsStemAndExt(body, mimeType, now, random);
    StoredNameExtension(body, mimeType, now, random);
    StoredPageName(body, mimeType, now, random);
  }

  /**
   * A successful save replies 201 with the stored name, the image's
   * relative and absolute URLs, the absolute URL of the page named after
   * the image's stem, and the expiry one TTL after now.
   */
  lemma SaveReply(images: seq<DirEntry>, pages: map<string, string>, stored: string, origin: string,
                  body: ShareBody, mimeType: string, now: nat, random: real)
    requires UniqueNames(images) && 0.0 <= random < 1.0
    requires stored == StoredName(body, mimeType, now, random)
    ensures var stem := StoredStem(Some(RequestedBase(body)), now, random);
      Saved(images, pages, stored, origin, now).0 == Success(201, ShareReply(
        IMAGES_URL + stored, origin + (IMAGES_URL + stored),
        origin + (PAGES_URL + (stem + ".html")), stored, now + SHARE_TTL_MS, 15))
  {
    StoredPageName(body, mimeType, now, random);
  }

  /**
   * A successful save writes the image under its stored name, modified
   * now, and leaves every other image as it was.
   */
  lemma SaveWritesImage(images: seq<DirEntry>, pages: map<string, string>, stored: string, origin: string, now: nat)
    requires UniqueNames(images)
    ensures var images' := Saved(images, pages, stored, origin, now).1;
      UniqueNames(images') &&
      FindEntry(images', stored).Some? && images'[FindEntry(images', stored).value] == DirEntry(stored, true, now) &&
      (forall i :: 0 <= i < |images| && images[i].name != stored ==> images[i] in images') &&
      (forall j :: 0 <= j < |images'| && images'[j].name != stored ==> images'[j] in images)
  {
  }

  /** A successful save adds exactly the page of the stored image to the page directory. */
  lemma SaveAddsPage(images: seq<DirEntry>, pages: map<string, string>, stored: string, origin: string, now: nat)
    requires UniqueNames(images)
    ensures Saved(images, pages, stored, origin, now).2.Keys == pages.Keys + {PageName(stored)}
  {
  }

  /** The page written holds the page built for the image's absolute URL. */
  lemma SavePageContent(images: seq<DirEntry>, pages: map<string, string>, stored: string, origin: string, now: nat)
    requires UniqueNames(images)
    ensures var pages' := Saved(images, pages, stored, origin, now).2;
      PageName(stored) in pages' && pages'[PageName(stored)] == BuildSharePageHtml(origin + (IMAGES_URL + stored))
  {
  }

  /** Every other page is left as it was. */
  lemma SaveKeepsOtherPages(images: seq<DirEntry>, pages: map<string, string>, stored: string, origin: string, now: nat)
    requires UniqueNames(images)
    ensures var pages' := Saved(images, pages, stored, origin, now).2;
      forall p :: p in pages && p != PageName(stored) ==> p in pages' && pages'[p] == pages[p]
  {
  }

  /**
   * A successful save writes the page of the stored image, holding the
   * page built for the image's absolute URL, and leaves every other page as
   * it was.
   */
  lemma SaveWritesPage(images: seq<DirEntry>, pages: map<string, string>, stored: string, origin: string, now: nat)
    requires UniqueNames(images)
    ensures var pages' := Saved(images, pages, stored, origin, now).2;
      var page := PageName(stored);
      pages'.Keys == pages.Keys + {page} &&
      pages'[page] == BuildSharePageHtml(origin + (IMAGES_URL + stored)) &&
      (forall p :: p in pages && p != page ==> pages'[p] == pages[p])
  {
    SaveAddsPage(images, pages, stored, origin, now);
    SavePageContent(images, pages, stored, origin, now);
    SaveKeepsOtherPages(images, pages, stored, origin, now);
  }

  /** Without a usable `fileName` the image is stored as `shared-image-<now>-<draw><ext>`. */
  lemma DefaultBaseName(body: ShareBody, mimeType: string, now: nat, random: real)
    requires !Truthy(body.fileName) && 0.0 <= random < 1.0
    ensures StoredName(body, mimeType, now, random) ==
            DEFAULT_BASE + "-" + NatToString(now) + "-" + NatToString(Draw(random)) + ResolveExtension(mimeType)
  {
    assert RequestedBase(body) == DEFAULT_BASE;
    DefaultBaseIsClean();
  }

  /**
   * The saved image expires exactly when the sweep runs more than the TTL
   * after the save, and the sweep then removes the very page the save
   * wrote for it.
   */
  lemma SavedImageExpiry(images: seq<DirEntry>, pages: map<string, string>, stored: string, origin: string,
                         now: nat, later: int)
    requires UniqueNames(images)
    ensures var (_, images', pages') := Saved(images, pages, stored, origin, now);
      PageName(stored) in pages' &&
      (stored in ExpiredNames(images', later) <==> later - now > SHARE_TTL_MS) &&
      (later - now > SHARE_TTL_MS ==>
         PageName(stored) !in PagesAfter(pages', PagesOf(ExpiredNames(images', later))))
  {
    var (_, images', pages') := Saved(images, pages, stored, origin, now);
    var k := FindEntry(images', stored).value;
    ExpiredNameIsUnique(images', later, stored, k);
    if later - now > SHARE_TTL_MS {
      var names := ExpiredNames(images', later);
      var m :| 0 <= m < |names| && names[m] == stored;
      var pn := PagesOf(names);
      assert pn[m] == PageName(stored);
      PagesAfterKeys(pages', pn, PageName(stored));
    }
  }

  /** In a directory of distinct names, a listed name is the one entry of that name. */
  lemma ExpiredNameIsUnique(entries: seq<DirEntry>, now: int, name: string, k: int)
    requires UniqueNames(entries) && 0 <= k < |entries| && entries[k].name == name
    ensures name in ExpiredNames(entries, now) <==> Expired(entries[k], now)
  {
    SweepPartition(entries, now);
    if name in ExpiredNames(entries, now) {
      var m :| 0 <= m < |ExpiredNames(entries, now)| && ExpiredNames(entries, now)[m] == name;
    }
  }
}
