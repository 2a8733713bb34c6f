/** The answer of the edge function (netlify/edge-functions/proxy-handler.ts, `buildProxyResponse`, the
    default handler and `handleGenericProxy`): the status, headers and body sent back for a response of
    the target. Fetching, reading a body as text and URL parsing are not modelled: their outcomes are
    parameters, with `None` for a step that throws. */
module Proxy {

  import opened Wrappers
  import opened Urls
  import opened Percent
  import opened Classify
  import opened Resolve
  import opened Rewrite
  import opened Headers

  /** A response of the target: its status, its headers by lower-case name and its body read as text. */
  datatype Upstream = Upstream(status: nat, headers: HeaderMap, text: string)

  /** The body of a reply: the target's body passed on untouched, or a text. */
  datatype Body = Passed | Text(content: string)

  datatype Reply = Reply(status: nat, headers: HeaderMap, body: Body)

  const BadGateway: nat := 502

  /** The headers of an error reply. */
  const ErrorHeaders: HeaderMap :=
    map["access-control-allow-origin" := "*", "content-type" := "text/plain;charset=UTF-8"]

  /** The body of the prefixed mode's error reply ("the proxy request failed"). */
  const PrefixedFailure := "代理请求失败"

  /** The body of the generic mode's error reply, followed by the text of the error. */
  const GenericFailure := "代理请求失败: "

  function ErrorReply(text: string): Reply {
    Reply(BadGateway, ErrorHeaders, Text(text))
  }

  /** `headers.get('content-type') || ''`. */
  function ContentTypeOf(h: HeaderMap): string {
    if "content-type" in h then h["content-type"] else ""
  }

  /** A redirect that `buildProxyResponse` looks at: a 3xx status with a `Location` header. */
  predicate IsRedirect(up: Upstream) {
    300 <= up.status < 400 && "location" in up.headers
  }

  /** The statuses whose responses have no body. */
  const NullBodyStatuses: set<nat> := {101, 103, 204, 205, 304}

  /** `new Response(body, { status })` succeeds: the status is between 200 and 599, and a text body is
      not given with a status whose responses have no body. A body passed on from the target is the
      target's own, which has none for such a status. */
  predicate Constructible(status: nat, text: bool) {
    200 <= status <= 599 && !(text && status in NullBodyStatuses)
  }

  // ---------------------------------------------------------------- buildProxyResponse

  /** `buildProxyResponse` for the response `up` of `target`, reached under `prefix` of the proxy at
      `proxy`, or `None` when it throws. The body is rewritten when the content type and path call for
      it and passed on otherwise; the headers are copied and, for a redirect, the `Location` is handled.
      It throws when the reply cannot be constructed with the target's status, and for a redirect whose
      `Location` does not resolve: `resolved` is that `Location` resolved against the target URL, `None`
      when that throws. `fixScript` is the text of the script injected into pages, which is not
      modelled. */
  function ProxyResponse(up: Upstream, target: Url, prefix: string, proxy: Url, fixScript: string,
                         resolved: Option<Url>): (r: Option<Reply>)
    ensures r.None? <==>
              || !Constructible(up.status, ShouldRewrite(ContentTypeOf(up.headers), target.pathname))
              || (IsRedirect(up) && resolved.None?)
    ensures r.Some? ==> r.value.status == up.status
    ensures r.Some? ==> (r.value.body.Text? <==> ShouldRewrite(ContentTypeOf(up.headers), target.pathname))
    ensures r.Some? && r.value.body.Text? ==>
              r.value.body.content == ResponseBody(up.text, ContentTypeOf(up.headers), target.host,
                                                   target.pathname, prefix, Origin(proxy), fixScript)
  {
    var contentType := ContentTypeOf(up.headers);
    var rewrite := ShouldRewrite(contentType, target.pathname);
    var body :=
      if rewrite then Text(ResponseBody(up.text, contentType, target.host, target.pathname, prefix, Origin(proxy), fixScript))
      else Passed;
    var headers := CopyHeaders(up.headers, contentType);
    if !Constructible(up.status, rewrite) then None
    else if !IsRedirect(up) then Some(Reply(up.status, headers, body))
    else
      match resolved
      case None => None
      case Some(u) => Some(Reply(up.status, HandleRedirect(headers, u, target, prefix, proxy), body))
  }

  /** The headers of a reply are the copied headers of the target's response; a redirect may change
      only the `Location`. */
  lemma ReplyHeaders(up: Upstream, target: Url, prefix: string, proxy: Url, fixScript: string,
                     resolved: Option<Url>)
    requires ProxyResponse(up, target, prefix, proxy, fixScript, resolved).Some?
    ensures var h := ProxyResponse(up, target, prefix, proxy, fixScript, resolved).value.headers;
            var copied := CopyHeaders(up.headers, ContentTypeOf(up.headers));
            forall k :: k != "location" ==> (k in h <==> k in copied) && (k in h ==> h[k] == copied[k])
  {
  }

  /** A page comes back with caching forbidden, a redirect included. */
  lemma PageNotCached(up: Upstream, target: Url, prefix: string, proxy: Url, fixScript: string,
                      resolved: Option<Url>)
    requires IsHtml(ContentTypeOf(up.headers))
    requires ProxyResponse(up, target, prefix, proxy, fixScript, resolved).Some?
    ensures var h := ProxyResponse(up, target, prefix, proxy, fixScript, resolved).value.headers;
            forall k :: k in NoCacheHeaders ==> k in h && h[k] == NoCacheHeaders[k]
  {
    ReplyHeaders(up, target, prefix, proxy, fixScript, resolved);
    ResponseHeaders(up.headers, ContentTypeOf(up.headers));
    assert "location" !in NoCacheHeaders;
  }

  /** A redirect within the target's origin sends the browser back to the proxy, under the same prefix,
      with the path and query redirected to. Only a 304 whose body is rewritten cannot be answered. */
  lemma SameOriginRedirectReply(up: Upstream, target: Url, prefix: string, proxy: Url, fixScript: string,
                                u: Url)
    requires IsRedirect(up) && Origin(u) == Origin(target)
    ensures var r := ProxyResponse(up, target, prefix, proxy, fixScript, Some(u));
            && (r.None? <==> up.status == 304 && ShouldRewrite(ContentTypeOf(up.headers), target.pathname))
            && (r.Some? ==> "location" in r.value.headers
                            && r.value.headers["location"] == Origin(proxy) + prefix + u.pathname + u.search)
  {
  }

  // ---------------------------------------------------------------- the prefixed mode

  /** The prefixed mode once the target URL is built, as written: the error reply when the fetch throws,
      and otherwise the outcome of `buildProxyResponse`. That call is returned without `await`, so when
      it throws the promise it returns rejects after the `try` has been left, and the handler rejects
      instead of answering with the error reply: `None` stands for that rejection. `fetched` is the
      outcome of the fetch. */
  function PrefixedReply(fetched: Option<Upstream>, target: Url, prefix: string, proxy: Url,
                         fixScript: string, resolved: Option<Url>): (r: Option<Reply>)
    ensures fetched.None? ==> r == Some(ErrorReply(PrefixedFailure))
    ensures fetched.Some? ==> r == ProxyResponse(fetched.value, target, prefix, proxy, fixScript, resolved)
  {
    match fetched
    case None => Some(ErrorReply(PrefixedFailure))
    case Some(up) => ProxyResponse(up, target, prefix, proxy, fixScript, resolved)
  }

  /** The prefixed mode with `buildProxyResponse` awaited, as the `try` evidently means it: every failure
      is answered with the error reply, and every request is answered. */
  function PrefixedReplyIntended(fetched: Option<Upstream>, target: Url, prefix: string, proxy: Url,
                                 fixScript: string, resolved: Option<Url>): (r: Reply)
    ensures r.status == BadGateway || (fetched.Some? && r.status == fetched.value.status)
    ensures r.status != BadGateway && fetched.Some? ==>
              Some(r) == ProxyResponse(fetched.value, target, prefix, proxy, fixScript, resolved)
    ensures PrefixedReply(fetched, target, prefix, proxy, fixScript, resolved).None? ==> r == ErrorReply(PrefixedFailure)
  {
    match PrefixedReply(fetched, target, prefix, proxy, fixScript, resolved)
    case None => ErrorReply(PrefixedFailure)
    case Some(reply) => reply
  }

  /** As written, a failing `buildProxyResponse` rejects the handler: for a redirect whose `Location` does
      not resolve, and for a rewritten body with a status that has no body. The intended mode answers
      both with the error reply. */
  lemma PrefixedRejectionEscapes(up: Upstream, target: Url, prefix: string, proxy: Url, fixScript: string,
                                 resolved: Option<Url>)
    requires (IsRedirect(up) && resolved.None?)
             || (up.status == 204 && ShouldRewrite(ContentTypeOf(up.headers), target.pathname))
    ensures PrefixedReply(Some(up), target, prefix, proxy, fixScript, resolved) == None
    ensures PrefixedReplyIntended(Some(up), target, prefix, proxy, fixScript, resolved) == ErrorReply(PrefixedFailure)
  {
  }

  /** Whenever the code as written answers, it answers as intended. */
  lemma PrefixedAgreesWhenAnswered(fetched: Option<Upstream>, target: Url, prefix: string, proxy: Url,
                                   fixScript: string, resolved: Option<Url>)
    requires PrefixedReply(fetched, target, prefix, proxy, fixScript, resolved).Some?
    ensures PrefixedReplyIntended(fetched, target, prefix, proxy, fixScript, resolved)
            == PrefixedReply(fetched, target, prefix, proxy, fixScript, resolved).value
  {
  }

  // ---------------------------------------------------------------- the generic mode

  /** The target URL of the generic mode for the request path `path` and the inbound URL `url`, or
      `None` when decoding the address throws. `parsed` is the address parsed as a URL, `None` when
      that throws. */
  function GenericTarget(path: string, url: Url, parsed: Option<Url>): (r: Option<Url>)
    requires GenericMarker <= path
    ensures r.Some? ==> GenericTargetString(path).Success? && parsed.Some?
    ensures GenericTargetString(path).Success? && parsed.Some? ==>
              r == Some(GenericTargetUrl(GenericTargetString(path).value, parsed.value, url))
  {
    match GenericTargetString(path)
    case Failure(_) => None
    case Success(s) =>
      match parsed
      case None => None
      case Some(p) => Some(GenericTargetUrl(s, p, url))
  }

  /** The `Location` the generic mode sends for a redirect to `u`: the proxy's `/proxy/` path followed by
      the encoded address. */
  function GenericLocation(proxy: Url, u: Url): string {
    Origin(proxy) + GenericMarker + Encode(Href(u))
  }

  /** The generic mode's reply to the target's response `up`, as written, or `None` when the handler
      rejects. `buildProxyResponse` is called without `await`. For a redirect, the `Location` is then set
      on the `headers` of a pending promise, which are undefined, and the `TypeError` this throws (or the
      failure to resolve the `Location` just before) is answered with the error reply. Otherwise the
      promise is returned, so its rejection escapes the `try`. `message` is the text of the error. */
  function GenericAnswerAsWritten(up: Upstream, target: Url, proxy: Url, fixScript: string,
                                  resolved: Option<Url>, message: string): (r: Option<Reply>)
    ensures IsRedirect(up) ==> r == Some(ErrorReply(GenericFailure + message))
    ensures !IsRedirect(up) ==> r == ProxyResponse(up, target, GenericMarker, proxy, fixScript, resolved)
  {
    if IsRedirect(up) then Some(ErrorReply(GenericFailure + message))
    else ProxyResponse(up, target, GenericMarker, proxy, fixScript, resolved)
  }

  /** The generic mode's reply to the target's response `up` with the response awaited: the reply of
      `buildProxyResponse`, with a redirect's `Location` pointing at the proxy's generic path for the
      address redirected to, and the error reply when it throws. */
  function GenericAnswer(up: Upstream, target: Url, proxy: Url, fixScript: string, resolved: Option<Url>,
                         message: string): (r: Reply)
    ensures ProxyResponse(up, target, GenericMarker, proxy, fixScript, resolved).None? ==>
              r == ErrorReply(GenericFailure + message)
    ensures !IsRedirect(up) && ProxyResponse(up, target, GenericMarker, proxy, fixScript, resolved).Some? ==>
              r == ProxyResponse(up, target, GenericMarker, proxy, fixScript, resolved).value
    ensures IsRedirect(up) && ProxyResponse(up, target, GenericMarker, proxy, fixScript, resolved).Some? ==>
              && resolved.Some? && r.status == up.status
              && "location" in r.headers && r.headers["location"] == GenericLocation(proxy, resolved.value)
    ensures r.status == BadGateway || r.status == up.status
  {
    match ProxyResponse(up, target, GenericMarker, proxy, fixScript, resolved)
    case None => ErrorReply(GenericFailure + message)
    case Some(reply) =>
      if IsRedirect(up) then reply.(headers := reply.headers["location" := GenericLocation(proxy, resolved.value)])
      else reply
  }

  /** `handleGenericProxy`, as written, for the request path `path` (which starts with `/proxy/`) received
      at the URL `url` of the proxy: the error reply when the address cannot be decoded or parsed or the
      fetch throws, and the answer as written otherwise. `None` stands for the handler rejecting. */
  function GenericReply(path: string, url: Url, parsed: Option<Url>, fetched: Option<Upstream>,
                        resolved: Option<Url>, fixScript: string, message: string): (r: Option<Reply>)
    requires GenericMarker <= path
    ensures GenericTarget(path, url, parsed).None? || fetched.None? ==> r == Some(ErrorReply(GenericFailure + message))
    ensures GenericTarget(path, url, parsed).Some? && fetched.Some? ==>
              r == GenericAnswerAsWritten(fetched.value, GenericTarget(path, url, parsed).value, url, fixScript,
                                          resolved, message)
  {
    match GenericTarget(path, url, parsed)
    case None => Some(ErrorReply(GenericFailure + message))
    case Some(target) =>
      match fetched
      case None => Some(ErrorReply(GenericFailure + message))
      case Some(up) => GenericAnswerAsWritten(up, target, url, fixScript, resolved, message)
  }

  /** `handleGenericProxy` with `buildProxyResponse` awaited: every request is answered, with the
      target's status or the error reply. */
  function GenericReplyIntended(path: string, url: Url, parsed: Option<Url>, fetched: Option<Upstream>,
                                resolved: Option<Url>, fixScript: string, message: string): (r: Reply)
    requires GenericMarker <= path
    ensures GenericTarget(path, url, parsed).None? || fetched.None? ==> r == ErrorReply(GenericFailure + message)
    ensures GenericTarget(path, url, parsed).Some? && fetched.Some? ==>
              r == GenericAnswer(fetched.value, GenericTarget(path, url, parsed).value, url, fixScript, resolved,
                                 message)
    ensures r.status == BadGateway || (fetched.Some? && r.status == fetched.value.status)
  {
    match GenericTarget(path, url, parsed)
    case None => ErrorReply(GenericFailure + message)
    case Some(target) =>
      match fetched
      case None => ErrorReply(GenericFailure + message)
      case Some(up) => GenericAnswer(up, target, url, fixScript, resolved, message)
  }

  /** As written, every redirect of the generic mode becomes a 502. */
  lemma GenericRedirectFails(up: Upstream, target: Url, proxy: Url, fixScript: string, u: Url, message: string)
    requires IsRedirect(up)
    ensures GenericAnswerAsWritten(up, target, proxy, fixScript, Some(u), message).Some?
    ensures GenericAnswerAsWritten(up, target, proxy, fixScript, Some(u), message).value.status == BadGateway
    ensures GenericAnswerAsWritten(up, target, proxy, fixScript, Some(u), message).value.status != up.status
  {
  }

  /** A concrete redirect: the target answers 302 with `Location: /login`; the browser receives a 502. */
  lemma LoginRedirectFails(target: Url, proxy: Url, fixScript: string, u: Url, message: string)
    ensures var up := Upstream(302, map["location" := "/login"], "");
            GenericAnswerAsWritten(up, target, proxy, fixScript, Some(u), message) == Some(ErrorReply(GenericFailure + message))
            && ErrorReply(GenericFailure + message).status == 502
  {
    var up := Upstream(302, map["location" := "/login"], "");
    assert IsRedirect(up);
  }

  /** With the response awaited, a redirect keeps its status and its `Location` leads back through the
      proxy's generic path to the address redirected to: the proxy derives from it exactly that address.
      Only a 304 whose body is rewritten cannot be answered. */
  lemma GenericRedirectRoundTrip(up: Upstream, target: Url, proxy: Url, fixScript: string, u: Url,
                                 message: string)
    requires IsRedirect(up)
    requires !(up.status == 304 && ShouldRewrite(ContentTypeOf(up.headers), target.pathname))
    requires u.protocol == "http:" || u.protocol == "https:"
    ensures var r := GenericAnswer(up, target, proxy, fixScript, Some(u), message);
            && r.status == up.status
            && "location" in r.headers
            && LeadsBack(proxy, r.headers["location"], Href(u))
  {
    assert Constructible(up.status, ShouldRewrite(ContentTypeOf(up.headers), target.pathname));
    GenericLocationRoundTrip(proxy, u);
  }

  /** `loc` is a path of the proxy's generic mode from which the proxy derives the address `address`. */
  predicate LeadsBack(proxy: Url, loc: string, address: string) {
    && Origin(proxy) + GenericMarker <= loc
    && GenericTargetString(loc[|Origin(proxy)|..]) == Success(address)
  }

  /** The proxy derives from the generic `Location` of `u` the address of `u`. */
  lemma GenericLocationRoundTrip(proxy: Url, u: Url)
    requires u.protocol == "http:" || u.protocol == "https:"
    ensures LeadsBack(proxy, GenericLocation(proxy, u), Href(u))
  {
    var loc := GenericLocation(proxy, u);
    HrefHasHttpScheme(u);
    EncodedAndPlainAgree(Href(u));
    assert loc[|Origin(proxy)|..] == GenericMarker + Encode(Href(u));
  }

  /** The address of an http or https URL starts with its scheme. */
  lemma HrefHasHttpScheme(u: Url)
    requires u.protocol == "http:" || u.protocol == "https:"
    ensures HasHttpScheme(Href(u))
  {
    var rest := u.host + u.pathname + u.search + u.hash;
    assert Href(u) == u.protocol + "//" + rest;
    assert (u.protocol + "//") + rest == Href(u);
  }

  /** Without a redirect, the awaited and the as-written generic mode give the same reply whenever the
      code as written answers; it rejects exactly where `buildProxyResponse` throws, which the awaited
      mode answers with the error reply. */
  lemma GenericAgreesWithoutRedirect(up: Upstream, target: Url, proxy: Url, fixScript: string,
                                     resolved: Option<Url>, message: string)
    requires !IsRedirect(up)
    ensures var written := GenericAnswerAsWritten(up, target, proxy, fixScript, resolved, message);
            && (written.None? <==> !Constructible(up.status, ShouldRewrite(ContentTypeOf(up.headers), target.pathname)))
            && (written.Some? ==> GenericAnswer(up, target, proxy, fixScript, resolved, message) == written.value)
            && (written.None? ==> GenericAnswer(up, target, proxy, fixScript, resolved, message)
                                  == ErrorReply(GenericFailure + message))
  {
  }
}
