/** `rewriteCssPaths` (netlify/edge-functions/proxy-handler.ts): every `url(...)` token of a style sheet
    is replaced according to its address, in one global, case-insensitive replacement. */
module CssRewrite {

  import opened Wrappers
  import opened Strings
  import opened Scan
  import opened Patterns

  /** The replacement of one `url(...)` token `token` whose address is `url`. Data addresses and
      fragment references are kept as they are; an address naming the target host (case-sensitively,
      anywhere in it) or starting with `//` keeps only its path and is put under the proxy base; a
      root-relative address is put under the proxy base; anything else is resolved against the
      directory of the current document, without collapsing `.` or `..`. */
  function UrlReplacement(token: string, url: string, domain: string, proxyBase: string,
                          pathBase: string): (r: string)
    ensures "data:" <= url || "#" <= url ==> r == token
    ensures !("data:" <= url || "#" <= url) ==>
              && "url(\"" + proxyBase <= r
              && r[|r| - 2..] == "\")"
  {
    if "data:" <= url || "#" <= url then token
    else if Contains(url, domain) || "//" <= url then "url(\"" + proxyBase + StripOrigin(url) + "\")"
    else if "/" <= url then "url(\"" + proxyBase + url + "\")"
    else "url(\"" + proxyBase + pathBase + url + "\")"
  }

  /** `rewriteCssPaths(content, targetDomain, proxyBaseUrl, targetPathBase)`. A style sheet with no `)`
      has no `url(...)` token and is left as it is. */
  function RewriteCss(content: string, domain: string, proxyBase: string, pathBase: string): (r: string)
    ensures ')' !in content ==> r == content
  {
    CallNeedsParen(content);
    ReplaceAll(content, UrlCallAt, (m, u) => UrlReplacement(m, u, domain, proxyBase, pathBase))
  }

  /** Every `url(...)` token ends with `)`. */
  lemma CallNeedsParen(content: string)
    ensures ')' !in content ==> forall k :: 0 <= k < |content| ==> !HitAt(UrlCallAt, content, k)
  {
    assert forall k :: 0 <= k < |content| && HitAt(UrlCallAt, content, k) ==>
      content[UrlCallAt(content, k).value.end - 1] == ')';
  }

  /** One `url(...)` token, in any letter case and with any quotes, is rewritten by the four cases. */
  lemma CssToken(kw: string, q1: string, v: string, q2: string, domain: string, proxyBase: string,
                 pathBase: string)
    requires Lower(kw) == "url("
    requires OptQuote(q1) && OptQuote(q2) && |v| > 0 && Avoids(v, UrlStops)
    ensures var token := kw + q1 + v + q2 + ")";
            var r := RewriteCss(token, domain, proxyBase, pathBase);
            && ("data:" <= v || "#" <= v ==> r == token)
            && (!("data:" <= v || "#" <= v) && (Contains(v, domain) || "//" <= v) ==>
                  r == "url(\"" + proxyBase + StripOrigin(v) + "\")")
            && (!("data:" <= v || "#" <= v || Contains(v, domain) || "//" <= v) && "/" <= v ==>
                  r == "url(\"" + proxyBase + v + "\")")
            && (!("data:" <= v || "#" <= v || Contains(v, domain) || "/" <= v) ==>
                  r == "url(\"" + proxyBase + pathBase + v + "\")")
  {
    TokenReplaced(kw, q1, v, q2, domain, proxyBase, pathBase);
  }

  /** A whole token is replaced by the replacement of its address. */
  lemma TokenReplaced(kw: string, q1: string, v: string, q2: string, domain: string, proxyBase: string,
                      pathBase: string)
    requires Lower(kw) == "url("
    requires OptQuote(q1) && OptQuote(q2) && |v| > 0 && Avoids(v, UrlStops)
    ensures var token := kw + q1 + v + q2 + ")";
            RewriteCss(token, domain, proxyBase, pathBase) == UrlReplacement(token, v, domain, proxyBase, pathBase)
  {
    var token := kw + q1 + v + q2 + ")";
    assert |kw| == 4;
    assert token[..4] == kw;
    assert token[4..] == q1 + v + q2 + ")";
    UrlCallMatches(token, 0, q1, v, q2);
    WholeMatch(UrlCallAt, token, (m, u) => UrlReplacement(m, u, domain, proxyBase, pathBase));
  }
}
