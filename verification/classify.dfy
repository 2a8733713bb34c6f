/** Content classification: whether a response body is read as text and rewritten, and which rewrite
    pass it gets (netlify/edge-functions/proxy-handler.ts, the content-type lists, `BINARY_EXTENSIONS`,
    `shouldRewriteContent` and the dispatch in `rewritePaths`). Content-type matching is by substring and
    case-sensitive, as in the source. */
module Classify {

  import opened Wrappers
  import opened Strings

  const HtmlTypes: seq<string> := ["text/html", "application/xhtml+xml", "application/xml", "text/xml"]
  const CssTypes: seq<string> := ["text/css"]
  const JsTypes: seq<string> := ["application/javascript", "text/javascript", "application/x-javascript"]

  /** Extensions of files that are passed through without being read as text. */
  const BinaryExtensions: set<string> := {
    "png", "jpg", "jpeg", "gif", "svg", "webp", "ico", "bmp",
    "mp3", "mp4", "webm", "ogg", "wav", "avi", "mov",
    "woff", "woff2", "ttf", "otf", "eot",
    "zip", "rar", "7z", "tar", "gz",
    "pdf", "doc", "docx", "xls", "xlsx", "ppt", "pptx"
  }

  /** `markers.some(t => contentType.includes(t))`. */
  predicate HasMarker(contentType: string, markers: seq<string>) {
    exists k | 0 <= k < |markers| :: Contains(contentType, markers[k])
  }

  predicate IsHtml(contentType: string) { HasMarker(contentType, HtmlTypes) }
  predicate IsCss(contentType: string) { HasMarker(contentType, CssTypes) }
  predicate IsJs(contentType: string) { HasMarker(contentType, JsTypes) }

  /** The rewrite pass a content type gets. */
  datatype Category = Html | Css | Js | Other

  /** The dispatch of `rewritePaths`: HTML is tested first, then CSS, then JavaScript. */
  function CategoryOf(contentType: string): Category {
    if IsHtml(contentType) then Html
    else if IsCss(contentType) then Css
    else if IsJs(contentType) then Js
    else Other
  }

  /** `pathname.split('.').pop().toLowerCase()`: the text after the last dot, or the whole path when it
      has no dot. (Lower-casing is ASCII only; the only characters outside ASCII whose lower case is ASCII
      are U+212A, which gives `k`, and U+0130, which gives two characters, and neither can complete an
      extension of the binary list.) */
  function Extension(pathname: string): string {
    Lower(AfterLastDot(pathname))
  }

  /** The text after the last dot, or the whole text when it has no dot. */
  function AfterLastDot(s: string): (r: string)
    ensures '.' !in r
  {
    match LastIndexOfChar(s, '.')
    case None => s
    case Some(k) => s[k + 1..]
  }

  /** The last piece of the text split at dots. */
  function LastPiece(s: string): string {
    var pieces := Split(s, '.');
    pieces[|pieces| - 1]
  }

  /** The extension is the lower-cased last piece of the path split at dots. */
  lemma ExtensionIsLastPiece(pathname: string)
    ensures Extension(pathname) == Lower(LastPiece(pathname))
  {
    LastPieceAfterLastDot(pathname);
  }

  lemma {:induction false} LastPieceAfterLastDot(s: string)
    ensures LastPiece(s) == AfterLastDot(s)
    decreases |s|
  {
    if '.' in s {
      var k := FirstIndexOfChar(s, '.');
      LastPieceAfterLastDot(s[k + 1..]);
      LastPieceOfTail(s, k);
      AfterLastDotOfTail(s, k);
    } else {
      assert Split(s, '.') == [s];
    }
  }

  /** Splitting at the first dot: the last piece is the last piece of what follows that dot. */
  lemma LastPieceOfTail(s: string, k: nat)
    requires '.' in s && k == FirstIndexOfChar(s, '.')
    ensures LastPiece(s) == LastPiece(s[k + 1..])
  {
    var restPieces := Split(s[k + 1..], '.');
    var pieces := [s[..k]] + restPieces;
    assert Split(s, '.') == pieces;
    assert pieces[|pieces| - 1] == restPieces[|restPieces| - 1];
  }

  /** Past any dot, the text after the last dot is unchanged. */
  lemma AfterLastDotOfTail(s: string, k: nat)
    requires k < |s| && s[k] == '.'
    ensures AfterLastDot(s) == AfterLastDot(s[k + 1..])
  {
    match LastIndexOfChar(s[k + 1..], '.')
    case None => NoDotAfter(s, k);
    case Some(j) => LastDotAfter(s, k, j);
  }

  lemma NoDotAfter(s: string, k: nat)
    requires k < |s| && s[k] == '.'
    requires LastIndexOfChar(s[k + 1..], '.').None?
    ensures LastIndexOfChar(s, '.') == Some(k)
  {
    var rest := s[k + 1..];
    forall i | k < i < |s| ensures s[i] != '.' {
      assert s[i] == rest[i - k - 1];
    }
    LastIndexOfCharAt(s, '.', k);
  }

  lemma LastDotAfter(s: string, k: nat, j: nat)
    requires k < |s| && s[k] == '.'
    requires LastIndexOfChar(s[k + 1..], '.') == Some(j)
    ensures LastIndexOfChar(s, '.') == Some(k + 1 + j)
    ensures s[k + 1 + j + 1..] == s[k + 1..][j + 1..]
  {
    var rest := s[k + 1..];
    var at := k + 1 + j;
    forall i | at < i < |s| ensures s[i] != '.' {
      assert s[i] == rest[i - k - 1];
    }
    LastIndexOfCharAt(s, '.', at);
  }

  /** `shouldRewriteContent(contentType, pathname)`: whether the body is read as text and rewritten.
      A content type with an HTML, CSS or JavaScript marker is always rewritten, whatever the path;
      otherwise a binary extension keeps the body as it is; otherwise text, JSON and XML types are
      rewritten and everything else is not. */
  function ShouldRewrite(contentType: string, pathname: string): (r: bool)
    ensures CategoryOf(contentType) != Other ==> r
    ensures CategoryOf(contentType) == Other && Extension(pathname) in BinaryExtensions ==> !r
    ensures CategoryOf(contentType) == Other && Extension(pathname) !in BinaryExtensions ==>
              (r <==> "text/" <= contentType || Contains(contentType, "json") || Contains(contentType, "xml"))
  {
    if IsHtml(contentType) || IsCss(contentType) || IsJs(contentType) then true
    else
      var ext := Extension(pathname);
      if ext != "" && ext in BinaryExtensions then false
      else "text/" <= contentType || Contains(contentType, "json") || Contains(contentType, "xml")
  }

  /** A path whose last dot is followed by `png`, in any letter case, is not rewritten unless its
      content type names HTML, CSS or JavaScript, even when it is a text type. */
  lemma PngPathNotRewritten(contentType: string, stem: string, ext: string)
    requires CategoryOf(contentType) == Other
    requires Lower(ext) == "png"
    ensures !ShouldRewrite(contentType, stem + "." + ext)
  {
    var p := stem + "." + ext;
    forall k | 0 <= k < |ext| ensures ext[k] != '.' {
      assert LowerChar(ext[k]) == "png"[k];
    }
    assert forall j :: |stem| < j < |p| ==> p[j] == ext[j - |stem| - 1];
    LastIndexOfCharAt(p, '.', |stem|);
    assert p[|stem| + 1..] == ext;
  }

  /** An `image/png` response is never rewritten, whatever its path. */
  lemma ImagePngNotRewritten(pathname: string)
    ensures !ShouldRewrite("image/png", pathname)
  {
    var ct := "image/png";
    assert 't' !in ct && 'l' !in ct && 'j' !in ct && 'x' !in ct;
    AbsentChar(ct, "text/html", 0);
    AbsentChar(ct, "application/xhtml+xml", 3);
    AbsentChar(ct, "application/xml", 3);
    AbsentChar(ct, "text/xml", 0);
    AbsentChar(ct, "text/css", 0);
    AbsentChar(ct, "application/javascript", 3);
    AbsentChar(ct, "text/javascript", 0);
    AbsentChar(ct, "application/x-javascript", 3);
    AbsentChar(ct, "json", 0);
    AbsentChar(ct, "xml", 0);
    assert !IsHtml(ct) && !IsCss(ct) && !IsJs(ct);
    assert ct[0] != "text/"[0];
  }
}
