/** `rewritePaths` and the body handling of `buildProxyResponse` (netlify/edge-functions/proxy-handler.ts):
    which rewrite a body gets, with which bases, and where the fix script goes in an HTML page. */
module Rewrite {

  import opened Wrappers
  import opened Strings
  import opened Classify
  import opened CssRewrite
  import opened JsRewrite
  import opened HtmlRewrite

  /** `currentPath.substring(0, currentPath.lastIndexOf('/') + 1)`: the directory of the current
      document, with its trailing slash; empty when the path has no `/`. */
  function PathBase(currentPath: string): (r: string)
    ensures r <= currentPath
    ensures r == "" || r[|r| - 1] == '/'
    ensures '/' !in currentPath[|r|..]
  {
    match LastIndexOfChar(currentPath, '/')
    case None => ""
    case Some(k) => currentPath[..k + 1]
  }

  /** A path cut after a directory ending in `/`, or with no directory at all, has that directory as
      its base, whatever the file name without `/` after it. */
  lemma PathBaseOf(dir: string, file: string)
    requires dir == "" || dir[|dir| - 1] == '/'
    requires '/' !in file
    ensures PathBase(dir + file) == dir
  {
    var p := dir + file;
    if dir == "" {
      assert p == file;
    } else {
      forall j | |dir| - 1 < j < |p| ensures p[j] != '/' {
        assert p[j] == file[j - |dir|];
      }
      LastIndexOfCharAt(p, '/', |dir| - 1);
      assert p[..|dir|] == dir;
    }
  }

  /** `rewritePaths(content, targetDomain, proxyPrefix, origin, currentPath, contentType)`: the proxy base
      is the proxy's origin followed by the matched prefix; HTML, CSS and JavaScript get their passes and
      any other content comes back unchanged. */
  function RewritePaths(content: string, domain: string, proxyPrefix: string, origin: string,
                        currentPath: string, contentType: string): (r: string)
    ensures CategoryOf(contentType) == Other ==> r == content
  {
    var pathBase := PathBase(currentPath);
    var proxyBase := origin + proxyPrefix;
    match CategoryOf(contentType)
    case Html => RewriteHtml(content, domain, proxyBase, pathBase)
    case Css => RewriteCss(content, domain, proxyBase, pathBase)
    case Js => RewriteJs(content, domain, proxyBase)
    case Other => content
  }

  /** The passes are chosen in a fixed order: a type naming an HTML type gets the HTML pass whatever
      else it names, one naming CSS gets the CSS pass even if it also names JavaScript, and only then is
      the JavaScript pass considered. */
  lemma DispatchOrder(content: string, domain: string, proxyPrefix: string, origin: string,
                      currentPath: string, contentType: string)
    ensures IsHtml(contentType) ==>
              RewritePaths(content, domain, proxyPrefix, origin, currentPath, contentType)
              == RewriteHtml(content, domain, origin + proxyPrefix, PathBase(currentPath))
    ensures !IsHtml(contentType) && IsCss(contentType) ==>
              RewritePaths(content, domain, proxyPrefix, origin, currentPath, contentType)
              == RewriteCss(content, domain, origin + proxyPrefix, PathBase(currentPath))
    ensures !IsHtml(contentType) && !IsCss(contentType) && IsJs(contentType) ==>
              RewritePaths(content, domain, proxyPrefix, origin, currentPath, contentType)
              == RewriteJs(content, domain, origin + proxyPrefix)
  {
  }

  /** A style sheet is rewritten against the directory of the current document under the proxy
      base. */
  lemma StyleSheetBases(content: string, domain: string, proxyPrefix: string, origin: string,
                        dir: string, file: string)
    requires dir == "" || dir[|dir| - 1] == '/'
    requires '/' !in file
    ensures RewritePaths(content, domain, proxyPrefix, origin, dir + file, "text/css")
            == RewriteCss(content, domain, origin + proxyPrefix, dir)
  {
    PathBaseOf(dir, file);
    CssType();
  }

  /** `text/css` names CSS and no HTML type. */
  lemma CssType()
    ensures CategoryOf("text/css") == Css
  {
    var ct := "text/css";
    assert 'h' !in ct && 'a' !in ct && 'm' !in ct;
    AbsentChar(ct, "text/html", 5);
    AbsentChar(ct, "application/xhtml+xml", 0);
    AbsentChar(ct, "application/xml", 0);
    AbsentChar(ct, "text/xml", 6);
    assert OccursAt(ct, CssTypes[0], 0);
  }

  /** A JSON body is read as text, because its type names `json`, unless its path ends in a binary
      extension; either way no pass applies to it, so it comes back unchanged. */
  lemma JsonReadButUnchanged(content: string, domain: string, proxyPrefix: string, origin: string,
                             pathname: string)
    ensures ShouldRewrite("application/json", pathname) <==> Extension(pathname) !in BinaryExtensions
    ensures RewritePaths(content, domain, proxyPrefix, origin, pathname, "application/json") == content
  {
    JsonType();
  }

  /** `application/json` names none of the HTML, CSS and JavaScript types, but contains `json`. */
  lemma JsonType()
    ensures CategoryOf("application/json") == Other && Contains("application/json", "json")
  {
    JsonNotHtml();
    JsonNotCssOrJs();
    assert OccursAt("application/json", "json", 12);
  }

  lemma JsonNotHtml()
    ensures !IsHtml("application/json")
  {
    var ct := "application/json";
    assert 'h' !in ct && 'x' !in ct && 'e' !in ct;
    AbsentChar(ct, "text/html", 5);
    AbsentChar(ct, "application/xhtml+xml", 12);
    AbsentChar(ct, "application/xml", 12);
    AbsentChar(ct, "text/xml", 1);
  }

  lemma JsonNotCssOrJs()
    ensures !IsCss("application/json") && !IsJs("application/json")
  {
    var ct := "application/json";
    assert 'e' !in ct && 'v' !in ct;
    AbsentChar(ct, "text/css", 1);
    AbsentChar(ct, "application/javascript", 14);
    AbsentChar(ct, "text/javascript", 7);
    AbsentChar(ct, "application/x-javascript", 16);
  }

  // ---------------------------------------------------------------- the fix script

  const BodyClose := "</body>"

  /** The fix script inserted before the last `</body>`, or appended when there is none. */
  function InjectScript(content: string, script: string): (r: string)
    ensures |r| == |content| + |script|
  {
    match LastIndexOf(content, BodyClose)
    case Some(k) => content[..k] + script + content[k..]
    case None => content + script
  }

  /** The script lands just before the last `</body>`, and taking it out again gives the page back. */
  lemma ScriptBeforeLastClose(content: string, script: string, k: nat)
    requires OccursAt(content, BodyClose, k)
    requires forall j: nat :: k < j <= |content| ==> !OccursAt(content, BodyClose, j)
    ensures var r := InjectScript(content, script);
            && r[k..k + |script|] == script
            && OccursAt(r, BodyClose, k + |script|)
            && r[..k] + r[k + |script|..] == content
  {
    var r := InjectScript(content, script);
    assert LastIndexOf(content, BodyClose) == Some(k);
    assert r == content[..k] + script + content[k..];
    assert r[k + |script|..] == content[k..];
    assert r[k + |script|..k + |script| + 7] == content[k..k + 7];
    assert content[..k] + content[k..] == content;
  }

  /** A page without `</body>` gets the script at its end. */
  lemma ScriptAppended(content: string, script: string)
    requires forall j: nat :: j <= |content| ==> !OccursAt(content, BodyClose, j)
    ensures InjectScript(content, script) == content + script
  {
  }

  /** The body of the proxied response. A body that is not rewritten is passed on as it came; otherwise
      it goes through `rewritePaths`, and an HTML page also gets the fix script. The fix script's text,
      which depends only on the prefix and the proxy's origin, is a parameter. */
  function ResponseBody(body: string, contentType: string, targetHost: string, targetPath: string,
                        proxyPrefix: string, origin: string, fixScript: string): (r: string)
    ensures !ShouldRewrite(contentType, targetPath) ==> r == body
    ensures CategoryOf(contentType) == Other ==> r == body
    ensures IsHtml(contentType) ==>
              r == InjectScript(RewritePaths(body, targetHost, proxyPrefix, origin, targetPath, contentType), fixScript)
    ensures ShouldRewrite(contentType, targetPath) && !IsHtml(contentType) ==>
              r == RewritePaths(body, targetHost, proxyPrefix, origin, targetPath, contentType)
  {
    if !ShouldRewrite(contentType, targetPath) then body
    else
      var content := RewritePaths(body, targetHost, proxyPrefix, origin, targetPath, contentType);
      if IsHtml(contentType) then InjectScript(content, fixScript) else content
  }

  /** An HTML page without `=`, `)` and `</body>` comes back with only the fix script appended. */
  lemma PlainPageGetsScript(body: string, targetHost: string, targetPath: string, proxyPrefix: string,
                            origin: string, fixScript: string)
    requires '=' !in body && ')' !in body && '<' !in body
    ensures ResponseBody(body, "text/html", targetHost, targetPath, proxyPrefix, origin, fixScript)
            == body + fixScript
  {
    assert OccursAt("text/html", HtmlTypes[0], 0);
    assert IsHtml("text/html");
    forall j: nat | j <= |body| ensures !OccursAt(body, BodyClose, j) {
      if j + 7 <= |body| {
        assert body[j..j + 7][0] == body[j];
      }
    }
  }
}
