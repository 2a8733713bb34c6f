# A model of the proxy handler's rewriting and forwarding core

This project models the edge function `netlify/edge-functions/proxy-handler.ts`, a reverse proxy. A request path is
mapped to an upstream in one of two ways: through a static table of path prefixes, or through the generic form
`/proxy/<address>`. The function then forwards the request with adjusted headers and rewrites the response so
that the upstream's own links lead back through the proxy. The model covers:

- route and target selection: `findProxyConfig`, the target address in prefix mode, and the address
  decoding of the generic mode;
- content classification: `shouldRewriteContent` and the dispatch in `rewritePaths`;
- the six HTML passes of `rewriteHtmlPaths`, the CSS pass and the two JavaScript passes. Each pass is one global
  `String.prototype.replace`. The scan is `Scan.ReplaceAll`. Each regular expression is a matcher written out
  from a backtracking analysis. Replacement templates follow ECMAScript's GetSubstitution (`Template`);
- the insertion of the fix script before the last `</body>`;
- the request headers of `buildProxyRequest`, the response headers of `copyHeaders`, and the `Location`
  rewriting of `handleRedirect`;
- the replies of `buildProxyResponse`, of the prefixed mode and of the generic mode.

Header lists are maps from lower-case names to values. URLs are records of the parts the proxy reads. Parsing
and resolving a URL, fetching, and reading a body are not modelled: their outcomes are parameters, and `None`
stands for a step that throws.

The member named after a source function models it as written. Where the code is evidently wrong (see Findings),
an `…Intended` member or a named lemma states the correction, and a lemma says where the two agree:
- in the generic mode, a redirect becomes a 502;
- when `buildProxyResponse` throws, the prefixed mode and the generic mode without a redirect reject instead of
  answering 502.

Behaviours and quirks of the code modelled as they are:
- relative addresses are joined to the document's directory without removing `.` or `..` segments;
- a path ending in `.png` is still rewritten when its content type names HTML, CSS or JavaScript
  (`Classify.PngPathNotRewritten` needs a content type of no such kind);
- the JavaScript passes rewrite only absolute and scheme-relative addresses of the target host;
- a JSON body is read as text but no pass applies to it (`Rewrite.JsonReadButUnchanged`);
- the `srcset` pass keeps a candidate that is not rewritten exactly as written, leading whitespace included,
  and joins candidates with `, `, so such a candidate is preceded by two spaces;
- the host match in the absolute HTML pass and the JavaScript passes ignores letter case, while the
  `includes(targetDomain)` tests of the image and CSS callbacks respect it.

## Model

| member | source | states |
|---|---|---|
| Resolve.FindProxyConfig | netlify/edge-functions/proxy-handler.ts:344-357 | A configured prefix the path falls under (equal to it, or followed by `/`) is found with its base exactly when one exists. Every other matching prefix is a prefix of the one found, so the most specific prefix wins. |
| Resolve.LongerPrefixServes | netlify/edge-functions/proxy-handler.ts:344-357 | With `/hexo` and `/hexo2` configured, `/hexo2/a` is served by `/hexo2` and its base, not by `/hexo`. |
| Resolve.PrefixNeedsBoundary | netlify/edge-functions/proxy-handler.ts:344-357 | With `/hexo` and `/hexo2` configured, `/hexoX` is served by neither prefix. |
| Resolve.MostSpecificFirst | netlify/edge-functions/proxy-handler.ts:345-350 | In descending lexicographic order, the first matching prefix extends every other matching prefix. |
| Resolve.RouteOf | netlify/edge-functions/proxy-handler.ts:306-316 | `/proxy/` paths, and only they, go to the generic mode. Otherwise the prefixed mode carries the prefix and base that `FindProxyConfig` finds, both non-empty, and the path lies under that prefix. A path with no match, or with an empty prefix or base, is passed through, and only such a path. |
| Resolve.TrimTrailingSlash | netlify/edge-functions/proxy-handler.ts:320 | At most one trailing slash is removed, and only when there is one. |
| Resolve.TargetString | netlify/edge-functions/proxy-handler.ts:319-320 | The target starts with the trimmed base. Putting the prefix back before the rest gives the request path again. |
| Resolve.TargetOfPrefixPaths | netlify/edge-functions/proxy-handler.ts:319-320 | The prefix maps to the base, and `prefix/x` maps to `base/x`. |
| Resolve.PrefixedTargetUrl | netlify/edge-functions/proxy-handler.ts:321-322 | The target keeps the parsed scheme, host, path and fragment, and takes the inbound query. |
| Resolve.GenericTargetString | netlify/edge-functions/proxy-handler.ts:362-370 | The result always has an http(s) scheme. A plain http(s) address is kept as is. An address with an encoded scheme is decoded once, and the outcome is exactly that decoding, a failure included. Anything else gets `https://` in front. |
| Resolve.EncodedSchemeDecodes | netlify/edge-functions/proxy-handler.ts:364-370 | An address starting with `http%3A%2F%2F` or `https%3A%2F%2F` that decodes gives an address with an http(s) scheme, so the `https://` fallback never applies to it. |
| Resolve.EncodedAndPlainAgree | netlify/edge-functions/proxy-handler.ts:362-370 | `/proxy/` followed by an address, or by its `encodeURIComponent` form, yields that same address. |
| Resolve.GenericTargetUrl | netlify/edge-functions/proxy-handler.ts:372-376 | The inbound query replaces the target's only when it is non-empty and the address has no `?`. |
| Percent.DecodeEncode | netlify/edge-functions/proxy-handler.ts:365 | `decodeURIComponent(encodeURIComponent(s)) == s` for every string, with UTF-8 octets. |
| Percent.Utf8RoundTrip | netlify/edge-functions/proxy-handler.ts:365 | Decoding the UTF-8 octets of a non-ASCII character gives it back, and the leading octet announces the right length. |
| Percent.DecodeEncodedPrefix | netlify/edge-functions/proxy-handler.ts:365 | Decoding the `encodeURIComponent` form of a text followed by anything gives that text followed by the decoding of the rest, failures included. |
| Classify.ShouldRewrite | netlify/edge-functions/proxy-handler.ts:510-534 | An HTML, CSS or JavaScript content type is always rewritten. Otherwise a binary extension is never rewritten. Otherwise rewriting happens exactly for `text/…`, `json` and `xml` types. |
| Classify.ExtensionIsLastPiece | netlify/edge-functions/proxy-handler.ts:523 | The extension is the lower-cased last piece of the path split at dots. |
| Classify.PngPathNotRewritten | netlify/edge-functions/proxy-handler.ts:522-526 | A path ending in `.png`, in any letter case, is not rewritten under a content type with no HTML, CSS or JavaScript marker. |
| Classify.ImagePngNotRewritten | netlify/edge-functions/proxy-handler.ts:510-534 | `image/png` is never rewritten, whatever the path. |
| Scan.PiecesCover | netlify/edge-functions/proxy-handler.ts:69 | The scan of a global replacement loses nothing: its pieces spell the subject text. |
| Scan.PiecesAt | netlify/edge-functions/proxy-handler.ts:69 | Each piece is what the expression does where the piece starts. Matches are leftmost-first and do not overlap. |
| Scan.NoHitUnchanged | netlify/edge-functions/proxy-handler.ts:132 | Where the expression matches nowhere, the replacement changes nothing. |
| Scan.IdentityUnchanged | netlify/edge-functions/proxy-handler.ts:102 | A callback that returns every match verbatim changes nothing. |
| Scan.ReplacementsAgree | netlify/edge-functions/proxy-handler.ts:69 | Two callbacks that agree on every match give the same global replacement of the whole text. |
| Scan.WholeMatch | netlify/edge-functions/proxy-handler.ts:132 | A text that is one match from end to end becomes that match's replacement. |
| Template.LiteralPrefix | netlify/edge-functions/proxy-handler.ts:79 | Template text without `$` is copied through. |
| Template.GroupReference | netlify/edge-functions/proxy-handler.ts:79 | `$n` stands for group `n`, and an undefined group for the empty string. |
| Template.LiteralOnly | netlify/edge-functions/proxy-handler.ts:123 | A `$`-free template expands to itself. |
| Patterns.AttrAt | netlify/edge-functions/proxy-handler.ts:66 | The alternation of the listed names followed by `=` picks the first listed name that matches, ignoring letter case. |
| Patterns.AttrHeadIsAlternation | netlify/edge-functions/proxy-handler.ts:78 | Looking up the text before the first `=` agrees with trying the alternatives in turn and then a quote. |
| Patterns.UrlCallAt | netlify/edge-functions/proxy-handler.ts:133 | A match is `url(`, an optional quote, a non-empty address free of quotes and `)`, an optional quote and `)`. |
| Patterns.UrlCallMatches | netlify/edge-functions/proxy-handler.ts:133 | Every such token, in any letter case and with any quotes, is matched whole, with its address as the capture. |
| Patterns.UrlCallShape | netlify/edge-functions/proxy-handler.ts:133 | Conversely, every match has that shape. |
| Patterns.StripOrigin | netlify/edge-functions/proxy-handler.ts:142 | The result is a suffix of the address. When anything was removed, what is left is empty or starts with `/`. |
| Patterns.StripOriginOf | netlify/edge-functions/proxy-handler.ts:96 | An `http:`, `https:` or scheme-relative address loses exactly its scheme and host. |
| HtmlAttrs.AbsoluteAt | netlify/edge-functions/proxy-handler.ts:65-68 | A match ends at a quote, and a defined path group is non-empty and free of quotes. |
| HtmlAttrs.AbsoluteMatch | netlify/edge-functions/proxy-handler.ts:65-68 | A listed attribute in any letter case matches up to its closing quote, with the name, the address and the path after the host as groups. The path group is undefined when the path is empty. |
| HtmlAttrs.AbsoluteTailMatch | netlify/edge-functions/proxy-handler.ts:66 | `http:`, `https:` or no scheme, then `//`, the host in any letter case and a quote-free path are recognised up to the quote. |
| HtmlAttrs.AbsoluteRewrite | netlify/edge-functions/proxy-handler.ts:69-75 | With the intended callback, an attribute becomes `name="<proxy base><path>"`. |
| HtmlAttrs.UndefinedPath | netlify/edge-functions/proxy-handler.ts:69-75 | As written, an address that is just the host becomes `name="<proxy base>undefined"`. |
| HtmlAttrs.AbsoluteReplacementsAgree | netlify/edge-functions/proxy-handler.ts:69-75 | For a defined path, the callback as written and as intended agree. |
| HtmlAttrs.AbsolutePassAsWritten | netlify/edge-functions/proxy-handler.ts:65-75 | The absolute pass as written is a global replacement with the callback as written. A document without `=` has no match and is unchanged. |
| HtmlAttrs.AbsolutePass | netlify/edge-functions/proxy-handler.ts:65-75 | The same pass with the intended callback. A document without `=` is unchanged. |
| HtmlAttrs.AbsolutePassesAgree | netlify/edge-functions/proxy-handler.ts:65-75 | When every matched address has a path after the host, the pass as written and the intended pass give the same document. |
| HtmlAttrs.RootMatch | netlify/edge-functions/proxy-handler.ts:77-81 | A listed attribute matches exactly when its value starts with `/` and runs to a quote. The groups are the name and the rest. |
| HtmlAttrs.RootRewrite | netlify/edge-functions/proxy-handler.ts:77-81 | A root-relative attribute becomes `name="<proxy base>/<rest>"`. |
| HtmlAttrs.RootPass | netlify/edge-functions/proxy-handler.ts:77-80 | The root-relative pass is a global replacement with the template `$1="<proxy base>/$2"`. A document without `=` is unchanged. |
| HtmlAttrs.RootTemplateFill | netlify/edge-functions/proxy-handler.ts:79 | The template `$1="<base>/$2"` gives the name, the base and the rest. |
| HtmlAttrs.RelativeMatch | netlify/edge-functions/proxy-handler.ts:83-87 | A listed attribute matches exactly when its value does not start with a scheme, `//` or `/`. |
| HtmlAttrs.RelativeRewrite | netlify/edge-functions/proxy-handler.ts:83-87 | With the intended replacement, a relative value becomes `name="<proxy base><directory><value>"`. |
| HtmlAttrs.RelativeRewriteAsWritten | netlify/edge-functions/proxy-handler.ts:83-87 | As written, the pass expands the template, with the directory pasted in, for the matched name and value. |
| HtmlAttrs.RelativeReplacementsAgree | netlify/edge-functions/proxy-handler.ts:85 | Without `$` in the base and the directory, the template as written gives the intended text. |
| HtmlAttrs.RelativePassAsWritten | netlify/edge-functions/proxy-handler.ts:83-86 | The relative pass as written expands the template with the directory pasted in. A document without `=` is unchanged. |
| HtmlAttrs.RelativePass | netlify/edge-functions/proxy-handler.ts:83-86 | The same pass inserting the directory literally. A document without `=` is unchanged. |
| HtmlAttrs.RelativePassesAgree | netlify/edge-functions/proxy-handler.ts:83-86 | Without `$` in the proxy base and the directory, the pass as written and the intended pass give the same document. |
| HtmlAttrs.DollarTemplate | netlify/edge-functions/proxy-handler.ts:85 | For the directory `/$1/`, the template puts the attribute name where the directory belongs. |
| HtmlAttrs.DollarRewrite | netlify/edge-functions/proxy-handler.ts:83-87 | For the directory `/$1/` and any proxy base without `$`, the pass as written turns `name="v"` into `name="<proxy base>/name/v"`. |
| HtmlAttrs.SourceX | netlify/edge-functions/proxy-handler.ts:84 | `src="x"` is a relative attribute the pass matches. |
| HtmlUrls.ImageNameOf | netlify/edge-functions/proxy-handler.ts:90 | A stem, a dot and a listed extension in any letter case name an image or font. |
| HtmlUrls.NoDotNoImage | netlify/edge-functions/proxy-handler.ts:90 | An address without a dot names none. |
| HtmlUrls.UrlToken | netlify/edge-functions/proxy-handler.ts:92 | A whole `url(...)` token is one match of the extraction expression, with its address. |
| HtmlUrls.ImageToken | netlify/edge-functions/proxy-handler.ts:89-104 | For an image token, a `//` or target-host address is put under the proxy base without scheme and host, a root-relative address is put under the proxy base, and anything else is kept. |
| HtmlUrls.OtherTokenKept | netlify/edge-functions/proxy-handler.ts:89-104 | A token naming no image or font is kept. |
| HtmlUrls.ImagePass | netlify/edge-functions/proxy-handler.ts:89-104 | The image pass replaces each image or font `url(...)` token by the callback. A document without `)` is unchanged. |
| HtmlUrls.SrcsetAt | netlify/edge-functions/proxy-handler.ts:108 | A match is `srcset=`, a quote, a non-empty list and a quote. |
| HtmlUrls.Candidates | netlify/edge-functions/proxy-handler.ts:110-116 | Each candidate is treated on its own, in order. |
| HtmlUrls.CandidateOf | netlify/edge-functions/proxy-handler.ts:110-116 | A root-relative candidate loses its surrounding whitespace and comes under the proxy base with its descriptors. A `//` or relative candidate is kept exactly as written. |
| HtmlUrls.CandidateOfWords | netlify/edge-functions/proxy-handler.ts:111-115 | The same, stated for any candidate by the words its trimmed text splits into. |
| HtmlUrls.WordsJoin | netlify/edge-functions/proxy-handler.ts:111 | `split(/\s+/)` of words joined by single spaces gives the words back. |
| HtmlUrls.SplitJoin | netlify/edge-functions/proxy-handler.ts:110 | `split(',')` of comma-free pieces joined by commas gives the pieces back. |
| HtmlUrls.SrcsetListOf | netlify/edge-functions/proxy-handler.ts:110-116 | A list of candidates joined by commas becomes the treated candidates joined by `, `. |
| HtmlUrls.SrcsetRewrite | netlify/edge-functions/proxy-handler.ts:106-118 | A `srcset` attribute in any letter case becomes `srcset="<treated list>"`. |
| HtmlUrls.SrcsetPass | netlify/edge-functions/proxy-handler.ts:107-118 | The srcset pass replaces each `srcset` attribute by its treated list. A document without `=` is unchanged. |
| HtmlUrls.HrefFrom | netlify/edge-functions/proxy-handler.ts:122 | Backtracking over `[^>]*` tries `href` from the right. A match ends at `>`. |
| HtmlUrls.BaseHrefAt | netlify/edge-functions/proxy-handler.ts:122 | In a `<base href=…>` tag, `href` fits only at its own place, and the match runs to the tag's end. |
| HtmlUrls.BaseRewrite | netlify/edge-functions/proxy-handler.ts:120-124 | A `<base href=…>` tag becomes `<base href="<proxy base>/">`. |
| HtmlUrls.BasePass | netlify/edge-functions/proxy-handler.ts:121-124 | The base pass replaces each `<base href=…>` tag by the fixed tag. A document without `=` is unchanged. |
| HtmlRewrite.RewriteHtml | netlify/edge-functions/proxy-handler.ts:63-127 | The six passes as written, in the source's order, each applied to the output of the one before. A document without `=` and `)` comes out unchanged. |
| HtmlRewrite.RewriteHtmlIntended | netlify/edge-functions/proxy-handler.ts:63-127 | The same six passes with the intended absolute and relative passes. A document without `=` and `)` comes out unchanged. |
| HtmlRewrite.Tail | netlify/edge-functions/proxy-handler.ts:88-124 | The image, srcset and base passes in that order. A text without `=` and `)` is unchanged. |
| HtmlRewrite.HtmlAsIntended | netlify/edge-functions/proxy-handler.ts:63-127 | When every matched absolute address has a path and neither the proxy base nor the directory holds `$`, the code as written rewrites the document exactly as intended. |
| CssRewrite.UrlReplacement | netlify/edge-functions/proxy-handler.ts:134-153 | `data:` and `#` tokens are kept. Every other token becomes `url("<proxy base>…")`. |
| CssRewrite.CssToken | netlify/edge-functions/proxy-handler.ts:130-155 | One `url(...)` token in any letter case and quoting is handled by the four cases: kept, host stripped, root-relative, or joined to the document's directory. |
| CssRewrite.TokenReplaced | netlify/edge-functions/proxy-handler.ts:132-154 | A whole token is replaced by the callback applied to its address. |
| CssRewrite.RewriteCss | netlify/edge-functions/proxy-handler.ts:130-155 | The CSS pass is one global replacement of `url(...)` tokens. A style sheet without `)` is unchanged. |
| JsRewrite.LeadEnd | netlify/edge-functions/proxy-handler.ts:161 | The lead is `http://` or `https://` in any letter case for the absolute pass, and `//` for the scheme-relative one. |
| JsRewrite.QuotedAt | netlify/edge-functions/proxy-handler.ts:161 | A match starts and ends with the same quote, and its path group is quote-free. |
| JsRewrite.QuotedMatch | netlify/edge-functions/proxy-handler.ts:160-163 | After an opening quote, the pattern matches exactly when the text after it does. The groups are the quote and the path. |
| JsRewrite.AbsoluteTail | netlify/edge-functions/proxy-handler.ts:161 | `http(s)://`, the host in any letter case and a quote-free path are recognised up to the closing quote. |
| JsRewrite.RelativeTail | netlify/edge-functions/proxy-handler.ts:167 | `//`, the host and a quote-free path are recognised up to the closing quote. |
| JsRewrite.TemplateFill | netlify/edge-functions/proxy-handler.ts:162 | `$1<base>$2$1` gives the quote, the base, the path and the same quote. |
| JsRewrite.JsPass | netlify/edge-functions/proxy-handler.ts:160-169 | One JavaScript pass, absolute or scheme-relative. A text without quotes is unchanged. |
| JsRewrite.RewriteJs | netlify/edge-functions/proxy-handler.ts:158-172 | The absolute pass followed by the scheme-relative one. A text without quotes is unchanged. |
| JsRewrite.AbsoluteFirstPass | netlify/edge-functions/proxy-handler.ts:160-163 | A quoted absolute address of the host becomes the quoted proxy base and path. |
| JsRewrite.AbsoluteToken | netlify/edge-functions/proxy-handler.ts:158-172 | The same holds after both passes, because the second pass leaves the result alone. |
| JsRewrite.QuotesOnlyAtEnds | netlify/edge-functions/proxy-handler.ts:166-169 | The scheme-relative pass leaves alone a quoted text that does not start with `//`. |
| JsRewrite.AbsolutePassSkips | netlify/edge-functions/proxy-handler.ts:160-163 | The absolute pass leaves a quoted scheme-relative address alone. |
| JsRewrite.RelativeToken | netlify/edge-functions/proxy-handler.ts:158-172 | A quoted scheme-relative address of the host becomes the quoted proxy base and path. |
| Rewrite.PathBase | netlify/edge-functions/proxy-handler.ts:48 | The directory is a prefix of the path, ends in `/` or is empty, and no `/` follows it. |
| Rewrite.PathBaseOf | netlify/edge-functions/proxy-handler.ts:48 | For `dir + file` with a slash-free file name, the directory is `dir`. |
| Rewrite.RewritePaths | netlify/edge-functions/proxy-handler.ts:47-60 | Content that is not HTML, CSS or JavaScript comes back unchanged. |
| Rewrite.DispatchOrder | netlify/edge-functions/proxy-handler.ts:47-60 | A type naming HTML gets the HTML pass whatever else it names. A type naming CSS but no HTML gets the CSS pass. Only a type naming neither gets the JavaScript pass. Each pass works against the proxy origin plus prefix, and the HTML and CSS passes also use the current directory. |
| Rewrite.StyleSheetBases | netlify/edge-functions/proxy-handler.ts:47-56 | A style sheet is rewritten with the proxy base `origin + prefix` and the document's directory. |
| Rewrite.CssType | netlify/edge-functions/proxy-handler.ts:34 | `text/css` is dispatched to the CSS pass. |
| Rewrite.JsonReadButUnchanged | netlify/edge-functions/proxy-handler.ts:510-534 | A JSON body is read as text exactly when its path has no binary extension, and it always comes back unchanged. |
| Rewrite.InjectScript | netlify/edge-functions/proxy-handler.ts:475-483 | The script is inserted and nothing is lost. |
| Rewrite.ScriptBeforeLastClose | netlify/edge-functions/proxy-handler.ts:477-479 | The script lands right before the last `</body>`, and removing it gives the page back. |
| Rewrite.ScriptAppended | netlify/edge-functions/proxy-handler.ts:480-482 | Without `</body>`, the script is appended. |
| Rewrite.ResponseBody | netlify/edge-functions/proxy-handler.ts:466-483 | A body that is not to be rewritten is unchanged. A rewritten HTML body is the rewritten text with the script inserted. Any other rewritten body is exactly the rewritten text. |
| Rewrite.PlainPageGetsScript | netlify/edge-functions/proxy-handler.ts:466-483 | A plain HTML page gets only the script appended. |
| Headers.DropColon | netlify/edge-functions/proxy-handler.ts:421 | The first colon is removed, and only that. |
| Headers.Forwarded | netlify/edge-functions/proxy-handler.ts:416-421 | `Host` and the three `X-Forwarded-*` headers get their values. Every other header is unchanged. |
| Headers.WithRefererAndOrigin | netlify/edge-functions/proxy-handler.ts:423-441 | `Referer` moves to the target's origin, is kept when it does not parse, and is the target's root when absent. A non-empty `Origin` becomes the target's origin. Nothing else changes. |
| Headers.ProxyRequestHeaders | netlify/edge-functions/proxy-handler.ts:444-445 | `Accept-Encoding` and `Cookie` are never sent. |
| Headers.RequestHeaders | netlify/edge-functions/proxy-handler.ts:407-448 | The request carries the forwarding headers, `Referer` and `Origin` as set. Every other browser header arrives unchanged, and nothing else is added. |
| Headers.RefererOnTargetOrigin | netlify/edge-functions/proxy-handler.ts:423-435 | The target sees a `Referer` on its own origin, unless the browser's one did not parse. |
| Headers.Copied | netlify/edge-functions/proxy-handler.ts:547-553 | Exactly the headers outside the skipped four are copied, with their values. |
| Headers.Opened | netlify/edge-functions/proxy-handler.ts:555-565 | The CORS headers are set, the security headers are removed, and nothing else changes. |
| Headers.Cached | netlify/edge-functions/proxy-handler.ts:567-574 | HTML gets the three no-cache headers. Anything else gets a public one-day `Cache-Control` and keeps its other headers. |
| Headers.ResponseHeaders | netlify/edge-functions/proxy-handler.ts:537-575 | No skipped or security header comes back. All CORS headers and the cache policy do. Every other upstream header comes back unchanged, and nothing else is added. |
| Headers.OtherContentKeepsExpiry | netlify/edge-functions/proxy-handler.ts:572-574 | Non-HTML responses keep the upstream `Pragma` and `Expires`. |
| Headers.NoCookiesBack | netlify/edge-functions/proxy-handler.ts:549-556 | `Set-Cookie` never comes back, and `Access-Control-Allow-Origin` is `*`. |
| Headers.HandleRedirect | netlify/edge-functions/proxy-handler.ts:578-598 | A cross-origin redirect is untouched. A same-origin one gets the `Location` proxy origin, prefix, redirected path and query. No other header changes. |
| Headers.RedirectStaysUnderPrefix | netlify/edge-functions/proxy-handler.ts:588-592 | The new `Location` is the proxy origin and prefix followed by the redirected path and query. The proxy fetches that path at the base followed by the redirected path, which is the redirected address when the base is the bare origin of the target. |
| Headers.BasePathRepeated | netlify/edge-functions/proxy-handler.ts:588-592 | As written, when the base has a path, a redirect into that path comes back with the path after the prefix, and the proxy fetches it with the base path twice, not the redirected address. |
| Headers.HandleRedirectIntended | netlify/edge-functions/proxy-handler.ts:578-598 | The intended handling keeps a cross-origin redirect untouched, sets `Location` for a same-origin one, and changes no other header. |
| Headers.RedirectRoundTrip | netlify/edge-functions/proxy-handler.ts:588-592 | With the intended handling, a same-origin redirect into the base comes back under the prefix, and the proxy fetches exactly the redirected address for it. |
| Headers.RedirectAgreesWithoutBasePath | netlify/edge-functions/proxy-handler.ts:588-592 | When the base is the bare origin of the target, the intended handling is the code as written. |
| Proxy.ProxyResponse | netlify/edge-functions/proxy-handler.ts:451-507 | The status is kept. The body is text exactly when it is to be rewritten, and is then the rewritten body. The call fails exactly when `new Response` rejects the status (outside 200 to 599, or a text body with 204, 205 or 304), or for a redirect whose `Location` does not resolve. |
| Proxy.ReplyHeaders | netlify/edge-functions/proxy-handler.ts:498-504 | A reply's headers are the copied headers, except possibly `Location`. |
| Proxy.PageNotCached | netlify/edge-functions/proxy-handler.ts:498-504 | A page reply, redirects included, forbids caching. |
| Proxy.SameOriginRedirectReply | netlify/edge-functions/proxy-handler.ts:501-504 | A same-origin redirect points back under the proxy prefix with the redirected path and query. Only a 304 with a rewritten body cannot be answered. |
| Proxy.PrefixedReply | netlify/edge-functions/proxy-handler.ts:326-340 | A failed fetch gives the 502 error reply. Otherwise the outcome is exactly `buildProxyResponse`'s, and its failure rejects the handler instead of giving 502. |
| Proxy.PrefixedReplyIntended | netlify/edge-functions/proxy-handler.ts:326-340 | With the response awaited, every request is answered: with `buildProxyResponse`'s reply and the upstream status, or with the 502 error reply wherever the code as written rejects. |
| Proxy.PrefixedRejectionEscapes | netlify/edge-functions/proxy-handler.ts:330 | As written, an unresolvable redirect or a rewritten 204 rejects the handler, where the awaited mode answers 502. |
| Proxy.PrefixedAgreesWhenAnswered | netlify/edge-functions/proxy-handler.ts:326-340 | Wherever the code as written answers, it answers as intended. |
| Proxy.GenericTarget | netlify/edge-functions/proxy-handler.ts:362-376 | There is a target exactly when the address decodes and parses, and it is the generic target URL. |
| Proxy.GenericAnswerAsWritten | netlify/edge-functions/proxy-handler.ts:380-393 | As written, every redirect gives the 502 error reply. Any other response gives exactly `buildProxyResponse`'s outcome, and its failure rejects the handler. |
| Proxy.GenericAnswer | netlify/edge-functions/proxy-handler.ts:380-393 | With the response awaited, a failure of `buildProxyResponse` gives the 502 error reply, any other response is its reply, and the status is the upstream's or 502. |
| Proxy.GenericReply | netlify/edge-functions/proxy-handler.ts:360-404 | A failed decode, parse or fetch gives the 502 error reply. Otherwise the outcome is the as-written answer for the target built from the request path. |
| Proxy.GenericReplyIntended | netlify/edge-functions/proxy-handler.ts:360-404 | With the response awaited, every request is answered, with the upstream status or the 502 error reply, and a decoded target gets the awaited answer. |
| Proxy.GenericRedirectFails | netlify/edge-functions/proxy-handler.ts:383-391 | As written, a generic redirect's status is 502, never the upstream's. |
| Proxy.LoginRedirectFails | netlify/edge-functions/proxy-handler.ts:383-391 | A 302 with `Location: /login` gives 502 as written. |
| Proxy.GenericLocationRoundTrip | netlify/edge-functions/proxy-handler.ts:389 | The generic `Location` of an address leads the proxy back to exactly that address. |
| Proxy.GenericRedirectRoundTrip | netlify/edge-functions/proxy-handler.ts:386-391 | With the response awaited, a redirect keeps its status, and its `Location` leads back through `/proxy/` to the redirected address. A 304 with a rewritten body is excepted, because it cannot be built. |
| Proxy.GenericAgreesWithoutRedirect | netlify/edge-functions/proxy-handler.ts:383-393 | Without a redirect, the code as written rejects exactly where the response cannot be built, and otherwise agrees with the awaited mode, which answers those cases with 502. |

## Left out

- Fetching, `Request`/`Response` construction, reading a body as text, and the bytes of a body passed through
  untouched: these are platform I/O. The fetch outcome and the text are parameters.
- URL parsing and resolution (the URL Standard): a `Url` is a record of its parsed parts. A parse or
  resolution that throws is `None`.
- The CORS pre-flight (`OPTIONS`) answer and logging (`context.log`): neither affects the rewriting or
  forwarding core.
- `generateFixScript`: the script's text is a parameter. Only its placement is modelled.
- The configured table's contents: `Resolve.ProxyTable` is any table. The order of its prefixes is
  constrained to be descending lexicographic.
- Escaping of the target host in the constructed regular expressions: only dots are escaped. The model matches
  the host as literal text, so a host holding other regular-expression syntax (an IPv6 literal in brackets)
  is not modelled.
- Header lists: names are taken in lower case, as `Headers` reports them. The new response's header list is
  taken as empty before copying. A text body's default `Content-Type` is always overwritten there, because
  rewriting needs a content type.
- The request method and body are forwarded unchanged and are not modelled.
- CssRewrite.UrlReplacement: its contract states the shape of the result only. The exact text of each case
  is stated by `CssRewrite.CssToken`.
- Rewrite.RewritePaths: its contract states only that unrelated content is unchanged. The per-pass results
  are stated by `Rewrite.DispatchOrder`, the pass lemmas and `Rewrite.StyleSheetBases`.
- Rewrite.InjectScript: its contract states only the length of the result. The position of the script and
  the text around it are stated by `Rewrite.ScriptBeforeLastClose` and `Rewrite.ScriptAppended`.
- The six HTML passes, the CSS pass and the JavaScript passes: their own contracts state only that a text with
  nothing to match is unchanged. What each match becomes is stated by the token lemmas: `HtmlAttrs.AbsoluteRewrite`,
  `HtmlAttrs.RootRewrite`, `HtmlAttrs.RelativeRewrite`, `HtmlUrls.ImageToken`, `HtmlUrls.SrcsetRewrite`,
  `HtmlUrls.BaseRewrite`, `CssRewrite.CssToken`, `JsRewrite.AbsoluteToken` and `JsRewrite.RelativeToken`.
- Headers.HandleRedirectIntended: its contract states only which headers change. The `Location` it sets is
  stated by `Headers.RedirectRoundTrip`.
- Resolve.Less: orders prefixes by code point, where `Array.prototype.sort` compares UTF-16 code units. The two
  differ only for prefixes holding characters above U+FFFF next to characters from U+E000 to U+FFFF.
- A passed-through body for a status without a body (204, 205, 304) is taken to be null, as a fetch delivers
  it, so building that response fails only for a status outside 200 to 599. Only a text body is checked against
  those statuses.
- Headers.ProxyRequestHeaders: its contract states only the headers that are removed. The value of every
  header it sets or keeps is stated by `Headers.RequestHeaders`.

## Findings

| source | as written | input that shows it | evidently intended | confidence | as-written member | corrected member |
|---|---|---|---|---|---|---|
| netlify/edge-functions/proxy-handler.ts:66-75 | The optional group `([^"']*)?` is undefined when the address is only the host, and the template literal prints `undefined`. | `content="https://HOST"` becomes `content="<proxy base>undefined"` | `content="<proxy base>"` | high; not executed | HtmlAttrs.UndefinedPath | HtmlAttrs.AbsoluteRewrite |
| netlify/edge-functions/proxy-handler.ts:85 | The document's directory is pasted into a replacement template, so `$` sequences in it are expanded. | Directory `/$1/`: `src="x"` becomes `src="<proxy base>/src/x"` | `src="<proxy base>/$1/x"` | high; not executed | HtmlAttrs.DollarRewrite | HtmlAttrs.RelativeRewrite |
| netlify/edge-functions/proxy-handler.ts:383-391 | `buildProxyResponse` is not awaited. Setting `Location` on the pending promise's undefined `headers` throws, and the catch answers 502. | A generic-mode upstream 302 with `Location: /login` gives 502 | The upstream status, with `Location` set to `<origin>/proxy/<encoded address>` | high; not executed | Proxy.GenericRedirectFails | Proxy.GenericRedirectRoundTrip |
| netlify/edge-functions/proxy-handler.ts:330 | `buildProxyResponse` is returned without `await`, so when it throws, the promise rejects after the `try` has been left, and the `catch` never answers. | A prefixed-mode upstream 204 with `Content-Type: text/html`: `new Response(text, {status: 204})` throws, and the handler rejects | The 502 error reply | medium; not executed | Proxy.PrefixedRejectionEscapes | Proxy.PrefixedReplyIntended |
| netlify/edge-functions/proxy-handler.ts:588-592 | The redirected path is put after the prefix whole, though the prefix already stands for the base's own path. | Base `https://discord.com/api` under `/discord`; a redirect to `/api/v10/x` becomes `<proxy>/discord/api/v10/x`, which is fetched as `https://discord.com/api/api/v10/x` | `<proxy>/discord/v10/x` | medium; not executed | Headers.BasePathRepeated | Headers.RedirectRoundTrip |
