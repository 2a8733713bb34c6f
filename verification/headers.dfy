/** Header handling of the proxy (netlify/edge-functions/proxy-handler.ts): the request headers sent to
    the target (`buildProxyRequest`), the response headers sent back (`copyHeaders`) and the rewriting
    of a redirect's `Location` (`handleRedirect`). A header list is a map from lower-case names to
    values, as the platform's `Headers` object keeps it. */
module Headers {

  import opened Wrappers
  import opened Strings
  import opened Urls
  import opened Classify
  import opened Resolve

  /** A header list, by lower-case name. */
  type HeaderMap = map<string, string>

  // ---------------------------------------------------------------- the request to the target

  /** The headers `buildProxyRequest` sets or deletes. */
  const RequestManaged: set<string> :=
    {"host", "x-forwarded-for", "x-forwarded-host", "x-forwarded-proto", "referer", "origin",
     "accept-encoding", "cookie"}

  /** `s.replace(':', '')`: the first colon removed. */
  function DropColon(s: string): (r: string)
    ensures ':' in s ==> |r| == |s| - 1 && exists k :: 0 <= k < |s| && s[k] == ':' && r == s[..k] + s[k + 1..]
    ensures ':' !in s ==> r == s
  {
    if ':' in s then
      var k := FirstIndexOfChar(s, ':');
      s[..k] + s[k + 1..]
    else s
  }

  /** `context.ip || request.headers.get('x-nf-client-connection-ip') || ""`: the platform's client
      address when it is not empty, otherwise the platform's client-address header, otherwise empty. */
  function ClientIp(contextIp: string, incoming: HeaderMap): string {
    if contextIp != "" then contextIp
    else if "x-nf-client-connection-ip" in incoming then incoming["x-nf-client-connection-ip"]
    else ""
  }

  /** A header is present with a non-empty value, which is what the source's truthiness test on
      `headers.get(name)` checks. */
  predicate HasValue(h: HeaderMap, name: string) {
    name in h && h[name] != ""
  }

  /** The `Referer` sent to the target, or `None` when the browser's one is left as it is. A browser
      `Referer` that parses keeps its path and query on the target's origin; one that does not parse is
      left alone; without one, the target's root is sent. `parsedReferer` is the result of parsing the
      browser's `Referer`, which is not modelled. */
  function RefererFor(incoming: HeaderMap, target: Url, parsedReferer: Option<Url>): Option<string> {
    if HasValue(incoming, "referer") then
      match parsedReferer
      case Some(u) => Some(target.protocol + "//" + target.host + u.pathname + u.search)
      case None => None
    else Some(target.protocol + "//" + target.host + "/")
  }

  function SetIfSome(h: HeaderMap, name: string, value: Option<string>): (r: HeaderMap) {
    match value
    case Some(v) => h[name := v]
    case None => h
  }

  /** The headers naming the target and the proxy. */
  const ForwardingNames: set<string> := {"host", "x-forwarded-for", "x-forwarded-host", "x-forwarded-proto"}

  /** The browser's headers with the target's host and the forwarding headers set. */
  function Forwarded(incoming: HeaderMap, target: Url, proxy: Url, contextIp: string): (h: HeaderMap)
    ensures "host" in h && h["host"] == target.host
    ensures "x-forwarded-for" in h && h["x-forwarded-for"] == ClientIp(contextIp, incoming)
    ensures "x-forwarded-host" in h && h["x-forwarded-host"] == proxy.host
    ensures "x-forwarded-proto" in h && h["x-forwarded-proto"] == DropColon(proxy.protocol)
    ensures forall k :: k !in ForwardingNames ==> (k in h <==> k in incoming) && (k in h ==> h[k] == incoming[k])
  {
    incoming["host" := target.host]
            ["x-forwarded-for" := ClientIp(contextIp, incoming)]
            ["x-forwarded-host" := proxy.host]
            ["x-forwarded-proto" := DropColon(proxy.protocol)]
  }

  /** The `Referer` and `Origin` of the request to the target. */
  function WithRefererAndOrigin(h: HeaderMap, incoming: HeaderMap, target: Url, parsedReferer: Option<Url>)
    : (r: HeaderMap)
    requires "referer" in incoming ==> "referer" in h && h["referer"] == incoming["referer"]
    requires "origin" in h <==> "origin" in incoming
    requires "origin" in incoming ==> h["origin"] == incoming["origin"]
    ensures "referer" in r
    ensures !HasValue(incoming, "referer") ==> r["referer"] == Origin(target) + "/"
    ensures HasValue(incoming, "referer") && parsedReferer.Some? ==>
              r["referer"] == Origin(target) + parsedReferer.value.pathname + parsedReferer.value.search
    ensures HasValue(incoming, "referer") && parsedReferer.None? ==> r["referer"] == incoming["referer"]
    ensures ("origin" in r <==> "origin" in incoming)
    ensures HasValue(incoming, "origin") ==> r["origin"] == Origin(target)
    ensures "origin" in incoming && !HasValue(incoming, "origin") ==> r["origin"] == ""
    ensures forall k :: k != "referer" && k != "origin" ==> (k in r <==> k in h) && (k in r ==> r[k] == h[k])
  {
    var withReferer := SetIfSome(h, "referer", RefererFor(incoming, target, parsedReferer));
    if HasValue(incoming, "origin") then withReferer["origin" := target.protocol + "//" + target.host]
    else withReferer
  }

  /** The headers of the request `buildProxyRequest` sends to `target` for a browser request with
      headers `incoming` received at `proxy`: the browser's headers with the forwarding headers, the
      `Referer` and the `Origin` set, and without `Accept-Encoding` and `Cookie`. */
  function ProxyRequestHeaders(incoming: HeaderMap, target: Url, proxy: Url, contextIp: string,
                               parsedReferer: Option<Url>): (h: HeaderMap)
    ensures "cookie" !in h && "accept-encoding" !in h
  {
    var forwarded := Forwarded(incoming, target, proxy, contextIp);
    DistinctRequestNames();
    WithRefererAndOrigin(forwarded, incoming, target, parsedReferer) - {"accept-encoding", "cookie"}
  }

  /** The request headers: the forwarding headers, the `Referer` and the `Origin` as set, and every
      other browser header, except `Accept-Encoding` and `Cookie`, as it came. Nothing else is added. */
  lemma RequestHeaders(incoming: HeaderMap, target: Url, proxy: Url, contextIp: string,
                       parsedReferer: Option<Url>)
    ensures var h := ProxyRequestHeaders(incoming, target, proxy, contextIp, parsedReferer);
            && "host" in h && h["host"] == target.host
            && "x-forwarded-for" in h && h["x-forwarded-for"] == ClientIp(contextIp, incoming)
            && "x-forwarded-host" in h && h["x-forwarded-host"] == proxy.host
            && "x-forwarded-proto" in h && h["x-forwarded-proto"] == DropColon(proxy.protocol)
            && "referer" in h
            && (!HasValue(incoming, "referer") ==> h["referer"] == Origin(target) + "/")
            && (HasValue(incoming, "referer") && parsedReferer.Some? ==>
                  h["referer"] == Origin(target) + parsedReferer.value.pathname + parsedReferer.value.search)
            && (HasValue(incoming, "referer") && parsedReferer.None? ==> h["referer"] == incoming["referer"])
            && ("origin" in h <==> "origin" in incoming)
            && (HasValue(incoming, "origin") ==> h["origin"] == Origin(target))
            && (forall k :: k in incoming && k !in RequestManaged ==> k in h && h[k] == incoming[k])
            && (forall k :: k in h ==> k in incoming || k in RequestManaged)
  {
    DistinctRequestNames();
  }

  lemma DistinctRequestNames()
    ensures "referer" !in ForwardingNames && "origin" !in ForwardingNames
    ensures "accept-encoding" !in ForwardingNames && "cookie" !in ForwardingNames
    ensures "referer" != "accept-encoding" && "referer" != "cookie"
    ensures "origin" != "accept-encoding" && "origin" != "cookie"
  {
    assert |"referer"| == 7 && |"origin"| == 6 && |"accept-encoding"| == 15 && |"cookie"| == 6;
    assert "origin"[0] != "cookie"[0];
    assert "accept-encoding"[0] != "x-forwarded-for"[0];
  }

  /** The target sees the browser's `Referer` moved onto its own origin, except when that `Referer`
      could not be parsed: then it is passed on as the browser sent it. */
  lemma RefererOnTargetOrigin(incoming: HeaderMap, target: Url, proxy: Url, contextIp: string,
                              parsedReferer: Option<Url>)
    ensures var h := ProxyRequestHeaders(incoming, target, proxy, contextIp, parsedReferer);
            "referer" in h
            && (Origin(target) <= h["referer"]
                || (HasValue(incoming, "referer") && parsedReferer.None? && h["referer"] == incoming["referer"]))
  {
    RequestHeaders(incoming, target, proxy, contextIp, parsedReferer);
  }

  // ---------------------------------------------------------------- the response to the browser

  /** Headers of the target's response that are not passed on. */
  const Skipped: set<string> := {"content-length", "content-encoding", "transfer-encoding", "set-cookie"}

  /** Security headers removed so that the page can be framed and scripted under the proxy. */
  const SecurityHeaders: set<string> :=
    {"content-security-policy", "content-security-policy-report-only", "x-frame-options",
     "x-content-type-options"}

  const CorsHeaders: map<string, string> := map[
    "access-control-allow-origin" := "*",
    "access-control-allow-methods" := "GET, POST, PUT, DELETE, PATCH, OPTIONS",
    "access-control-allow-headers" := "Content-Type, Authorization, X-Requested-With, Accept, Origin, Range",
    "access-control-expose-headers" := "Content-Length, Content-Type, Content-Disposition"
  ]

  const NoCacheHeaders: map<string, string> := map[
    "cache-control" := "no-store, no-cache, must-revalidate, proxy-revalidate",
    "pragma" := "no-cache",
    "expires" := "0"
  ]

  const PublicCache := "public, max-age=86400"

  /** The headers `copyHeaders` writes besides the copied ones. */
  const ResponseManaged: set<string> := CorsHeaders.Keys + NoCacheHeaders.Keys

  /** The target's headers without the skipped ones. */
  function Copied(source: HeaderMap): (h: HeaderMap)
    ensures forall k :: k in h <==> k in source && k !in Skipped
    ensures forall k :: k in h ==> h[k] == source[k]
  {
    map k | k in source && k !in Skipped :: source[k]
  }

  /** The CORS headers set, then the security headers removed. */
  function Opened(h: HeaderMap): (r: HeaderMap)
    ensures forall k :: k in CorsHeaders ==> k in r && r[k] == CorsHeaders[k]
    ensures forall k :: k in SecurityHeaders ==> k !in r
    ensures forall k :: k !in CorsHeaders && k !in SecurityHeaders ==>
              (k in r <==> k in h) && (k in r ==> r[k] == h[k])
  {
    DistinctResponseNames();
    (h + CorsHeaders) - SecurityHeaders
  }

  /** The cache policy: an HTML page is not to be cached at all, anything else may be cached publicly
      for a day, and keeps whatever `Pragma` and `Expires` the target sent. */
  function Cached(h: HeaderMap, html: bool): (r: HeaderMap)
    ensures html ==> forall k :: k in NoCacheHeaders ==> k in r && r[k] == NoCacheHeaders[k]
    ensures !html ==> "cache-control" in r && r["cache-control"] == PublicCache
    ensures !html ==> forall k :: k != "cache-control" ==> (k in r <==> k in h) && (k in r ==> r[k] == h[k])
    ensures forall k :: k !in NoCacheHeaders ==> (k in r <==> k in h) && (k in r ==> r[k] == h[k])
  {
    if html then h + NoCacheHeaders else h["cache-control" := PublicCache]
  }

  /** `copyHeaders(source, target, ...)` into the empty header list of a new response. */
  function CopyHeaders(source: HeaderMap, contentType: string): HeaderMap {
    Cached(Opened(Copied(source)), IsHtml(contentType))
  }

  /** The response headers: none of the skipped or security headers, all the CORS headers, the cache
      policy of the content type, and every other header of the target's response as it came. Nothing
      else is added. */
  lemma ResponseHeaders(source: HeaderMap, contentType: string)
    ensures var h := CopyHeaders(source, contentType);
            && (forall k :: k in Skipped + SecurityHeaders ==> k !in h)
            && (forall k :: k in CorsHeaders ==> k in h && h[k] == CorsHeaders[k])
            && (IsHtml(contentType) ==> forall k :: k in NoCacheHeaders ==> k in h && h[k] == NoCacheHeaders[k])
            && (!IsHtml(contentType) ==> "cache-control" in h && h["cache-control"] == PublicCache)
            && (forall k :: k in source && k !in Skipped + SecurityHeaders + ResponseManaged ==>
                  k in h && h[k] == source[k])
            && (forall k :: k in h ==> k in source || k in ResponseManaged)
  {
    DistinctResponseNames();
  }

  /** A non-HTML response keeps the `Pragma` and `Expires` headers of the target's response, next to
      the public `Cache-Control`. */
  lemma OtherContentKeepsExpiry(source: HeaderMap, contentType: string)
    requires !IsHtml(contentType)
    ensures var h := CopyHeaders(source, contentType);
            forall k :: k in {"pragma", "expires"} ==> (k in h <==> k in source) && (k in h ==> h[k] == source[k])
  {
    DistinctResponseNames();
  }

  /** No header name belongs to two of the groups. */
  lemma DistinctResponseNames()
    ensures CorsHeaders.Keys !! SecurityHeaders && CorsHeaders.Keys !! NoCacheHeaders.Keys
    ensures CorsHeaders.Keys !! Skipped && NoCacheHeaders.Keys !! Skipped
    ensures NoCacheHeaders.Keys !! SecurityHeaders
    ensures "pragma" !in Skipped + SecurityHeaders && "expires" !in Skipped + SecurityHeaders
  {
  }

  /** A response that sets cookies loses them on the way back, and the browser may read it from any
      origin. */
  lemma NoCookiesBack(source: HeaderMap, contentType: string)
    requires "set-cookie" in source
    ensures var h := CopyHeaders(source, contentType);
            "set-cookie" !in h && "access-control-allow-origin" in h && h["access-control-allow-origin"] == "*"
  {
    ResponseHeaders(source, contentType);
  }

  // ---------------------------------------------------------------- redirects

  /** `handleRedirect`: a redirect whose resolved address `resolved` is on the target's origin is sent
      back under the proxy, with the path and query of the resolved address after the proxy's origin and
      the matched prefix; a redirect elsewhere keeps the `Location` the target sent. Resolving the
      `Location` against the target URL is not modelled: `resolved` is its result. */
  function HandleRedirect(h: HeaderMap, resolved: Url, target: Url, prefix: string, proxy: Url): (r: HeaderMap)
    ensures Origin(resolved) != Origin(target) ==> r == h
    ensures Origin(resolved) == Origin(target) ==>
              "location" in r && r["location"] == Origin(proxy) + prefix + resolved.pathname + resolved.search
    ensures forall k :: k != "location" ==> (k in r <==> k in h) && (k in r ==> r[k] == h[k])
  {
    if Origin(resolved) == Origin(target) then
      h["location" := proxy.protocol + "//" + proxy.host + prefix + resolved.pathname + resolved.search]
    else h
  }

  /** A same-origin redirect points at the proxy under the matched prefix, and what follows the prefix
      is the path and query the target redirected to. Requesting that path again through the prefix
      fetches the redirected path appended to the base, which is the redirected address only when the
      base is the bare origin of the target. */
  lemma RedirectStaysUnderPrefix(h: HeaderMap, resolved: Url, target: Url, prefix: string, proxy: Url,
                                 base: string)
    requires Origin(resolved) == Origin(target)
    ensures var loc := HandleRedirect(h, resolved, target, prefix, proxy)["location"];
            var lead := Origin(proxy) + prefix;
            && lead <= loc
            && loc[|lead|..] == resolved.pathname + resolved.search
            && TargetString(base, prefix, prefix + resolved.pathname) == TrimTrailingSlash(base) + resolved.pathname
            && (TrimTrailingSlash(base) == Origin(target) ==>
                  TargetString(base, prefix, prefix + resolved.pathname) == Origin(resolved) + resolved.pathname)
  {
    var loc := HandleRedirect(h, resolved, target, prefix, proxy)["location"];
    var lead := Origin(proxy) + prefix;
    assert loc == lead + (resolved.pathname + resolved.search);
    assert (prefix + resolved.pathname)[|prefix|..] == resolved.pathname;
  }

  /** When the base has a path of its own, as written, a same-origin redirect into that path is fetched
      with the path twice: for the base `https://discord.com/api`, a redirect to `/api/v10/x` is sent
      back as `<proxy>/discord/api/v10/x`, which the proxy fetches as `https://discord.com/api/api/v10/x`. */
  lemma BasePathRepeated(h: HeaderMap, resolved: Url, target: Url, prefix: string, proxy: Url,
                         base: string, basePath: string, rest: string)
    requires Origin(resolved) == Origin(target)
    requires TrimTrailingSlash(base) == Origin(target) + basePath && basePath != ""
    requires resolved.pathname == basePath + rest
    ensures var loc := HandleRedirect(h, resolved, target, prefix, proxy)["location"];
            && loc == Origin(proxy) + prefix + basePath + rest + resolved.search
            && TargetString(base, prefix, prefix + resolved.pathname) == Origin(target) + basePath + basePath + rest
            && TargetString(base, prefix, prefix + resolved.pathname) != Origin(resolved) + resolved.pathname
  {
    RedirectStaysUnderPrefix(h, resolved, target, prefix, proxy, base);
    assert |Origin(target) + basePath + basePath + rest| != |Origin(resolved) + resolved.pathname|;
  }

  /** `handleRedirect` as evidently intended when the base has a path: the part of the redirected address
      after the base is put after the prefix. A redirect within the target's origin but outside the base
      has no address under the prefix and is handled as written. */
  function HandleRedirectIntended(h: HeaderMap, resolved: Url, target: Url, prefix: string, proxy: Url,
                                  base: string): (r: HeaderMap)
    ensures Origin(resolved) != Origin(target) ==> r == h
    ensures Origin(resolved) == Origin(target) ==> "location" in r
    ensures forall k :: k != "location" ==> (k in r <==> k in h) && (k in r ==> r[k] == h[k])
  {
    var trimmed := TrimTrailingSlash(base);
    var full := Origin(resolved) + resolved.pathname;
    if Origin(resolved) == Origin(target) && UnderPrefix(full, trimmed) then
      h["location" := Origin(proxy) + prefix + full[|trimmed|..] + resolved.search]
    else HandleRedirect(h, resolved, target, prefix, proxy)
  }

  /** With the intended handling, a same-origin redirect into the base comes back under the prefix, and
      the proxy fetches for it exactly the address redirected to, with its query. */
  lemma RedirectRoundTrip(h: HeaderMap, resolved: Url, target: Url, prefix: string, proxy: Url, base: string)
    requires Origin(resolved) == Origin(target)
    requires UnderPrefix(Origin(resolved) + resolved.pathname, TrimTrailingSlash(base))
    ensures var loc := HandleRedirectIntended(h, resolved, target, prefix, proxy, base)["location"];
            var full := Origin(resolved) + resolved.pathname;
            var p := prefix + full[|TrimTrailingSlash(base)|..];
            && loc == Origin(proxy) + p + resolved.search
            && UnderPrefix(p, prefix)
            && TargetString(base, prefix, p) == full
  {
    var trimmed := TrimTrailingSlash(base);
    var full := Origin(resolved) + resolved.pathname;
    var tail := full[|trimmed|..];
    var p := prefix + tail;
    assert full == trimmed + tail;
    assert tail == "" || "/" <= tail;
    assert p[..|prefix|] == prefix;
    if tail != "" {
      assert (prefix + "/") == p[..|prefix| + 1];
    }
    assert p[|prefix|..] == tail;
  }

  /** When the base is the bare origin of the target, the intended handling is the code as written. */
  lemma RedirectAgreesWithoutBasePath(h: HeaderMap, resolved: Url, target: Url, prefix: string, proxy: Url,
                                      base: string)
    requires TrimTrailingSlash(base) == Origin(target)
    ensures HandleRedirectIntended(h, resolved, target, prefix, proxy, base)
            == HandleRedirect(h, resolved, target, prefix, proxy)
  {
    var full := Origin(resolved) + resolved.pathname;
    if Origin(resolved) == Origin(target) && UnderPrefix(full, Origin(target)) {
      assert full[|Origin(target)|..] == resolved.pathname;
    }
  }
}
