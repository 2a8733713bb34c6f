/** `rewriteHtmlPaths` (netlify/edge-functions/proxy-handler.ts): the six replacement passes over an
    HTML document, each applied to the output of the one before. */
module HtmlRewrite {

  import opened Scan
  import opened Patterns
  import opened HtmlAttrs
  import opened HtmlUrls

  /** `rewriteHtmlPaths(content, targetDomain, proxyBaseUrl, targetPathBase)` as written: absolute
      addresses of the target host, root-relative addresses, relative addresses, `url(...)` tokens of
      images and fonts, `srcset` lists and the `<base>` tag, in that order. A document with no `=` and
      no `)` has no attribute, `url(...)` token or `<base href>` the passes could change, and comes out
      as it went in. */
  function RewriteHtml(content: string, domain: string, proxyBase: string, pathBase: string): (r: string)
    ensures '=' !in content && ')' !in content ==> r == content
  {
    var absolute := AbsolutePassAsWritten(content, domain, proxyBase);
    var rooted := RootPass(absolute, proxyBase);
    var relative := RelativePassAsWritten(rooted, proxyBase, pathBase);
    Tail(relative, domain, proxyBase)
  }

  /** The same passes with the intended absolute and relative replacements: an address that is just the
      host maps to the proxy base, and the directory is inserted literally. */
  function RewriteHtmlIntended(content: string, domain: string, proxyBase: string, pathBase: string): (r: string)
    ensures '=' !in content && ')' !in content ==> r == content
  {
    var absolute := AbsolutePass(content, domain, proxyBase);
    var rooted := RootPass(absolute, proxyBase);
    var relative := RelativePass(rooted, proxyBase, pathBase);
    Tail(relative, domain, proxyBase)
  }

  /** The last three passes, which are the same in both. */
  function Tail(relative: string, domain: string, proxyBase: string): (r: string)
    ensures '=' !in relative && ')' !in relative ==> r == relative
  {
    var images := ImagePass(relative, domain, proxyBase);
    var lists := SrcsetPass(images, proxyBase);
    BasePass(lists, proxyBase)
  }

  /** The code as written rewrites a document exactly as intended unless some address in it is just the
      target host, or the proxy base or the directory holds a `$`. */
  lemma HtmlAsIntended(content: string, domain: string, proxyBase: string, pathBase: string)
    requires PathsDefined(content, domain)
    requires '$' !in proxyBase + pathBase
    ensures RewriteHtml(content, domain, proxyBase, pathBase) == RewriteHtmlIntended(content, domain, proxyBase, pathBase)
  {
    AbsolutePassesAgree(content, domain, proxyBase);
    var rooted := RootPass(AbsolutePass(content, domain, proxyBase), proxyBase);
    RelativePassesAgree(rooted, proxyBase, pathBase);
  }
}
