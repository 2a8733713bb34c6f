/** Which upstream a request path is sent to: prefix lookup in the static table, the generic
    `/proxy/<url>` form, and the construction of the target address in both modes
    (netlify/edge-functions/proxy-handler.ts, the default handler, `findProxyConfig` and
    `handleGenericProxy`). */
module Resolve {

  import opened Wrappers
  import opened Percent
  import opened Urls

  // ---------------------------------------------------------------- the prefix table

  /** Lexicographic order on strings, the order of `Array.prototype.sort` without a comparator. */
  predicate Less(a: string, b: string) {
    if |a| == 0 then |b| > 0
    else if |b| == 0 then false
    else if a[0] == b[0] then Less(a[1..], b[1..])
    else a[0] < b[0]
  }

  /** The configured table: the base URL of every prefix, and the prefixes in the order the lookup
      visits them. */
  datatype ProxyTable = ProxyTable(bases: map<string, string>, order: seq<string>)

  /** `order` is `Object.keys(PROXY_CONFIG).sort().reverse()`: every configured prefix, each once, in
      descending lexicographic order. */
  predicate ValidTable(t: ProxyTable) {
    && (forall p :: p in t.bases ==> p in t.order)
    && (forall p :: p in t.order ==> p in t.bases)
    && (forall i, j :: 0 <= i < j < |t.order| ==> Less(t.order[j], t.order[i]))
  }

  /** A path falls under a prefix when it is the prefix or continues it with a `/`. */
  predicate UnderPrefix(path: string, prefix: string) {
    path == prefix || prefix + "/" <= path
  }

  /** The index in `order`, from `k` on, of the first prefix the path falls under. */
  function FirstMatchFrom(t: ProxyTable, path: string, k: nat): (r: Option<nat>)
    requires k <= |t.order|
    ensures r.Some? ==> k <= r.value < |t.order| && UnderPrefix(path, t.order[r.value])
    ensures r.Some? ==> forall j :: k <= j < r.value ==> !UnderPrefix(path, t.order[j])
    ensures r.None? ==> forall j :: k <= j < |t.order| ==> !UnderPrefix(path, t.order[j])
    decreases |t.order| - k
  {
    if k == |t.order| then None
    else if UnderPrefix(path, t.order[k]) then Some(k)
    else FirstMatchFrom(t, path, k + 1)
  }

  /** `findProxyConfig(path)`: the base URL and the prefix that serve `path`, or `None` for
      `{ targetBaseUrl: null, matchedPrefix: null }`. The prefix found is a configured one the path falls
      under, its base is that prefix's table entry, and every other configured prefix the path falls
      under is a prefix of it, so the most specific prefix wins. */
  function FindProxyConfig(t: ProxyTable, path: string): (r: Option<(string, string)>)
    requires ValidTable(t)
    ensures r.Some? ==> r.value.1 in t.bases && r.value.0 == t.bases[r.value.1]
    ensures r.Some? ==> UnderPrefix(path, r.value.1)
    ensures r.Some? ==> forall p :: p in t.bases && UnderPrefix(path, p) ==> p <= r.value.1
    ensures r.None? <==> forall p :: p in t.bases ==> !UnderPrefix(path, p)
  {
    match FirstMatchFrom(t, path, 0)
    case None =>
      assert forall p :: p in t.bases ==> !UnderPrefix(path, p) by {
        forall p | p in t.bases ensures !UnderPrefix(path, p) {
          var j :| 0 <= j < |t.order| && t.order[j] == p;
        }
      }
      None
    case Some(k) =>
      var prefix := t.order[k];
      assert forall p :: p in t.bases && UnderPrefix(path, p) ==> p <= prefix by {
        forall p | p in t.bases && UnderPrefix(path, p) ensures p <= prefix {
          var j :| 0 <= j < |t.order| && t.order[j] == p;
          MostSpecificFirst(t, path, k, j);
        }
      }
      Some((t.bases[prefix], prefix))
  }

  /** With `/hexo` and `/hexo2` both configured, `/hexo2/a` is served by `/hexo2`, not by `/hexo`. */
  lemma LongerPrefixServes(t: ProxyTable)
    requires ValidTable(t) && t.bases.Keys == {"/hexo", "/hexo2"}
    ensures FindProxyConfig(t, "/hexo2/a") == Some((t.bases["/hexo2"], "/hexo2"))
  {
    var r := FindProxyConfig(t, "/hexo2/a");
    assert UnderPrefix("/hexo2/a", "/hexo2") by {
      assert "/hexo2" + "/" == "/hexo2/a"[..7];
    }
    assert r.Some?;
    assert "/hexo2" <= r.value.1;
    assert r.value.1 != "/hexo";
  }

  /** With `/hexo` and `/hexo2` both configured, `/hexoX` is served by neither: a prefix only matches
      up to a `/` boundary. */
  lemma PrefixNeedsBoundary(t: ProxyTable)
    requires ValidTable(t) && t.bases.Keys == {"/hexo", "/hexo2"}
    ensures FindProxyConfig(t, "/hexoX") == None
  {
    assert !UnderPrefix("/hexoX", "/hexo") by {
      assert ("/hexo" + "/")[5] != "/hexoX"[5];
    }
    assert !UnderPrefix("/hexoX", "/hexo2") by {
      assert ("/hexo2" + "/")[5] != "/hexoX"[5];
    }
  }

  /** Of two prefixes a path falls under, the one visited first extends the other. */
  lemma MostSpecificFirst(t: ProxyTable, path: string, k: nat, j: nat)
    requires ValidTable(t)
    requires FirstMatchFrom(t, path, 0) == Some(k)
    requires j < |t.order| && UnderPrefix(path, t.order[j])
    ensures t.order[j] <= t.order[k]
  {
    var a, b := t.order[j], t.order[k];
    assert a <= path && b <= path;
    if j != k {
      assert k < j;
      assert Less(a, b);
      PrefixesOfOnePath(a, b, path);
      if !(a <= b) {
        assert b < a;
        ProperPrefixIsLess(b, a);
        LessAsymmetric(a, b);
      }
    }
  }

  lemma PrefixesOfOnePath(a: string, b: string, path: string)
    requires a <= path && b <= path
    ensures a <= b || b <= a
  {
    if |a| <= |b| {
      assert a == path[..|a|] == b[..|a|];
    } else {
      assert b == path[..|b|] == a[..|b|];
    }
  }

  lemma {:induction false} ProperPrefixIsLess(a: string, b: string)
    requires a < b
    ensures Less(a, b)
    decreases |a|
  {
    if |a| > 0 {
      ProperPrefixIsLess(a[1..], b[1..]);
    }
  }

  lemma {:induction false} LessAsymmetric(a: string, b: string)
    requires Less(a, b)
    ensures !Less(b, a)
    decreases |a|
  {
    if |a| > 0 && |b| > 0 && a[0] == b[0] {
      LessAsymmetric(a[1..], b[1..]);
    }
  }

  // ---------------------------------------------------------------- routing

  /** What the default handler does with a request path. */
  datatype Route =
    | Generic                                // `/proxy/<url>`: handled by `handleGenericProxy`
    | Prefixed(base: string, prefix: string)  // a configured prefix matched
    | PassThrough                            // no rule: the platform handles the request

  /** The default handler's choice of route for a non-OPTIONS request: the prefix and base found by
      `FindProxyConfig`, unless the path is a generic one. A base URL or prefix that is the empty string
      is falsy in the source and so counts as no match. */
  function RouteOf(t: ProxyTable, path: string): (r: Route)
    requires ValidTable(t)
    ensures r.Generic? <==> GenericMarker <= path
    ensures r.Prefixed? ==> FindProxyConfig(t, path) == Some((r.base, r.prefix)) && r.base != "" && r.prefix != ""
    ensures r.PassThrough? <==>
              && !(GenericMarker <= path)
              && (FindProxyConfig(t, path).None? || FindProxyConfig(t, path).value.0 == ""
                  || FindProxyConfig(t, path).value.1 == "")
    ensures r.Prefixed? ==> r.prefix in t.bases && r.base == t.bases[r.prefix] && UnderPrefix(path, r.prefix)
  {
    if GenericMarker <= path then Generic
    else match FindProxyConfig(t, path)
      case None => PassThrough
      case Some((base, prefix)) => if base == "" || prefix == "" then PassThrough else Prefixed(base, prefix)
  }

  // ---------------------------------------------------------------- prefix-mode target

  /** `base.replace(/\/$/, '')`: one trailing slash removed, if there is one. */
  function TrimTrailingSlash(base: string): (r: string)
    ensures r == base || (|base| > 0 && base[|base| - 1] == '/' && r + "/" == base)
    ensures |base| > 0 && base[|base| - 1] == '/' ==> |r| < |base|
  {
    if |base| > 0 && base[|base| - 1] == '/' then base[..|base| - 1] else base
  }

  /** The target address string of the prefix mode: the base without its trailing slash followed by the
      rest of the path after the prefix. Putting the prefix back in front of what follows the base gives
      the request path again. */
  function TargetString(base: string, prefix: string, path: string): (r: string)
    requires prefix <= path
    ensures TrimTrailingSlash(base) <= r
    ensures prefix + r[|TrimTrailingSlash(base)|..] == path
  {
    var r := TrimTrailingSlash(base) + path[|prefix|..];
    assert r[|TrimTrailingSlash(base)|..] == path[|prefix|..];
    r
  }

  /** The prefix itself is sent to the base, and `prefix + "/x"` to `base + "/x"` (for a base without a
      trailing slash). */
  lemma TargetOfPrefixPaths(base: string, prefix: string, x: string)
    requires |base| == 0 || base[|base| - 1] != '/'
    ensures TargetString(base, prefix, prefix) == base
    ensures TargetString(base, prefix, prefix + "/" + x) == base + "/" + x
  {
    assert (prefix + "/" + x)[|prefix|..] == "/" + x;
  }

  /** The prefix-mode target URL: the parsed target address with the inbound query in place of its own. */
  function PrefixedTargetUrl(parsed: Url, inbound: Url): (r: Url)
    ensures r.search == inbound.search
    ensures r.protocol == parsed.protocol && r.host == parsed.host && r.pathname == parsed.pathname
    ensures r.hash == parsed.hash
  {
    WithSearch(parsed, inbound.search)
  }

  // ---------------------------------------------------------------- generic-mode target

  const GenericMarker := "/proxy/"

  /** The remainder starts with a percent-encoded `http://` or `https://` (upper-case escapes only). */
  predicate EncodedScheme(s: string) {
    "http%3A%2F%2F" <= s || "https%3A%2F%2F" <= s
  }

  predicate HasHttpScheme(s: string) {
    "http://" <= s || "https://" <= s
  }

  /** The target address string of the generic mode: the text after `/proxy/`, decoded once when it
      starts with an encoded scheme, with `https://` put in front when it has no http(s) scheme. A
      malformed escape makes the decoding throw, which the source answers with a 502. */
  function GenericTargetString(path: string): (r: Result<string, UriError>)
    requires GenericMarker <= path
    ensures r.Success? ==> HasHttpScheme(r.value)
    ensures HasHttpScheme(path[|GenericMarker|..]) ==> r == Success(path[|GenericMarker|..])
    ensures !EncodedScheme(path[|GenericMarker|..]) ==>
              r == Success(path[|GenericMarker|..]) || r == Success("https://" + path[|GenericMarker|..])
    ensures EncodedScheme(path[|GenericMarker|..]) ==> r == Decode(path[|GenericMarker|..])
  {
    var rest := path[|GenericMarker|..];
    if HasHttpScheme(rest) then
      PlainSchemeIsNotEncoded(rest);
      Success(rest)
    else
    var decoded := if EncodedScheme(rest) then EncodedSchemeDecodes(rest); Decode(rest) else Success(rest);
    match decoded
    case Failure(e) => Failure(e)
    case Success(s) => Success(if HasHttpScheme(s) then s else "https://" + s)
  }

  /** A text starting with an encoded http(s) scheme decodes, when it decodes at all, to an http(s)
      address: the escapes of `://` are read back first. */
  lemma EncodedSchemeDecodes(s: string)
    requires EncodedScheme(s)
    ensures Decode(s).Success? ==> HasHttpScheme(Decode(s).value)
  {
    var scheme := if "https%3A%2F%2F" <= s then "https" else "http";
    var head := scheme + "%3A%2F%2F";
    var w := s[|head|..];
    assert s == head + w;
    EncodedSchemeOfScheme(scheme);
    DecodeEncodedPrefix(scheme + "://", w);
  }

  /** `/proxy/` followed by an http(s) address, or by its `encodeURIComponent` form, gives that same
      address. */
  lemma EncodedAndPlainAgree(u: string)
    requires HasHttpScheme(u)
    ensures GenericTargetString(GenericMarker + Encode(u)) == Success(u)
    ensures GenericTargetString(GenericMarker + u) == Success(u)
  {
    EncodedSchemeOf(u);
    if HasHttpScheme(Encode(u)) {
      PlainSchemeIsNotEncoded(Encode(u));
    }
    DecodeEncode(u);
    AfterMarker(u);
    AfterMarker(Encode(u));
  }

  lemma AfterMarker(u: string)
    ensures GenericMarker <= GenericMarker + u && (GenericMarker + u)[|GenericMarker|..] == u
  {
  }

  /** The encoding of an http(s) address starts with an encoded scheme. */
  lemma EncodedSchemeOf(u: string)
    requires HasHttpScheme(u)
    ensures EncodedScheme(Encode(u))
  {
    var scheme := if "https://" <= u then "https" else "http";
    var w := u[|scheme| + 3..];
    SchemeSplit(u, scheme);
    EncodedSchemePrefix(scheme, w);
  }

  /** An address that starts with `scheme://` is that text followed by the rest. */
  lemma SchemeSplit(u: string, scheme: string)
    requires scheme + "://" <= u
    ensures u == scheme + "://" + u[|scheme| + 3..]
  {
    assert u == u[..|scheme| + 3] + u[|scheme| + 3..];
  }

  /** An address that starts with a plain scheme does not start with an encoded one. */
  lemma PlainSchemeIsNotEncoded(s: string)
    requires HasHttpScheme(s)
    ensures !EncodedScheme(s)
  {
    assert s[4] == ':' || s[4] == 's';
    assert s[5] == '/' || s[5] == ':';
  }

  /** The generic-mode target URL: the inbound query is used only when there is one and the target
      address string has no `?` of its own. */
  function GenericTargetUrl(target: string, parsed: Url, inbound: Url): (r: Url)
    ensures inbound.search != "" && '?' !in target ==> r == WithSearch(parsed, inbound.search)
    ensures inbound.search == "" || '?' in target ==> r == parsed
  {
    if inbound.search != "" && '?' !in target then WithSearch(parsed, inbound.search) else parsed
  }
}
