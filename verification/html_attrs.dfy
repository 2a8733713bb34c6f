/** The three attribute passes of `rewriteHtmlPaths` (netlify/edge-functions/proxy-handler.ts): absolute
    addresses of the target host, root-relative addresses and relative addresses in `href`, `src` and
    similar attributes. Each is one global, case-insensitive replacement; the result always uses double
    quotes and keeps the attribute name as written. */
module HtmlAttrs {

  import opened Wrappers
  import opened Strings
  import opened Scan
  import opened Patterns
  import opened Template

  // ---------------------------------------------------------------- absolute addresses

  /** The capture groups of the absolute pass: the attribute, the address and the path after the host,
      which is `None` (undefined) when it is empty. */
  datatype AbsoluteGroups = AbsoluteGroups(attr: string, url: string, path: Option<string>)

  /** Where `(?:https?:)?` ends at `b`, with the `i` flag. When the longer form fails further on,
      neither shorter one can succeed, because the text at `b` starts with `h` but the rest must start
      with `/`. */
  function SchemeEndCi(s: string, b: nat): (h: nat)
    ensures h == b || h == b + 5 || h == b + 6
  {
    if HasAtCi(s, b, "https:") then b + 6 else if HasAtCi(s, b, "http:") then b + 5 else b
  }

  /** `(href|src|...|background)=["']((?:https?:)?//HOST([^"']*)?)["']` with the `i` flag, tried at
      index `i`. The optional group takes the rest of the address up to the next quote; when that rest
      is empty the group's single iteration matches the empty string, which ECMAScript refuses for an
      optional group, so the group is left undefined. */
  function AbsoluteAt(s: string, i: nat, domain: string): (r: Option<Hit<AbsoluteGroups>>)
    ensures r.Some? ==> i < r.value.end <= |s| && s[r.value.end - 1] in Quotes
    ensures r.Some? ==> var p := r.value.groups.path; p.Some? ==> |p.value| > 0 && Avoids(p.value, Quotes)
  {
    match AttrHead(s, i, AbsoluteAttrs)
    case None => None
    case Some(b) =>
      var t := s[b..];
      match AbsoluteTail(t, domain)
      case None => None
      case Some((d, e)) =>
        Some(Hit(b + e + 1, AbsoluteGroups(s[i..b - 2], t[..e], if e == d then None else Some(t[d..e]))))
  }

  /** The pattern after the opening quote, matched at the start of `t`, which is the text after that
      quote: the index `d` where the host ends and the index `e` of the closing quote. Nothing after the
      opening quote looks back, so the rest of the attribute can be matched on its own. */
  function AbsoluteTail(t: string, domain: string): (r: Option<(nat, nat)>)
    ensures r.Some? ==> var (d, e) := r.value; d <= e < |t| && t[e] in Quotes && Avoids(t[d..e], Quotes)
  {
    var h := SchemeEndCi(t, 0);
    if !OccursAt(t, "//", h) || !HasAtCi(t, h + 2, Lower(domain)) then None
    else
      var d := h + 2 + |domain|;
      var e := RunEnd(t, d, Quotes);
      if e == |t| then None else Some((d, e))
  }

  function AbsoluteMatcher(domain: string): Matcher<AbsoluteGroups> {
    (s: string, i: nat) => AbsoluteAt(s, i, domain)
  }

  /** The callback as written: a template literal, which prints an undefined path as `undefined`. */
  function AbsoluteReplacementAsWritten(proxyBase: string): (string, AbsoluteGroups) -> string {
    (m: string, g: AbsoluteGroups) =>
      g.attr + "=\"" + proxyBase + (match g.path case None => "undefined" case Some(p) => p) + "\""
  }

  /** The callback as intended: an address that is just the host maps to the proxy base. */
  function AbsoluteReplacement(proxyBase: string): (string, AbsoluteGroups) -> string {
    (m: string, g: AbsoluteGroups) => g.attr + "=\"" + proxyBase + g.path.GetOr("") + "\""
  }

  /** The absolute pass as written. A document with no `=` has no attribute and is left as it is. */
  function AbsolutePassAsWritten(content: string, domain: string, proxyBase: string): (r: string)
    ensures '=' !in content ==> r == content
  {
    AbsoluteNeedsEquals(content, domain);
    ReplaceAll(content, AbsoluteMatcher(domain), AbsoluteReplacementAsWritten(proxyBase))
  }

  /** The absolute pass as intended, with the same frame. */
  function AbsolutePass(content: string, domain: string, proxyBase: string): (r: string)
    ensures '=' !in content ==> r == content
  {
    AbsoluteNeedsEquals(content, domain);
    ReplaceAll(content, AbsoluteMatcher(domain), AbsoluteReplacement(proxyBase))
  }

  /** Every attribute pattern starts with a name and `=`: without `=`, nothing matches. */
  lemma AbsoluteNeedsEquals(content: string, domain: string)
    ensures '=' !in content ==> forall k :: 0 <= k < |content| ==> !HitAt(AbsoluteMatcher(domain), content, k)
  {
  }

  /** Every match of the absolute pattern has a defined path: no address in the document is just the
      target host. */
  predicate PathsDefined(content: string, domain: string) {
    forall k :: 0 <= k < |content| && HitAt(AbsoluteMatcher(domain), content, k) ==>
      AbsoluteAt(content, k, domain).value.groups.path.Some?
  }

  /** Where no address is just the host, the absolute pass as written gives the intended text. */
  lemma AbsolutePassesAgree(content: string, domain: string, proxyBase: string)
    requires PathsDefined(content, domain)
    ensures AbsolutePassAsWritten(content, domain, proxyBase) == AbsolutePass(content, domain, proxyBase)
  {
    ReplacementsAgree(AbsoluteMatcher(domain), content, 0, AbsoluteReplacementAsWritten(proxyBase),
                      AbsoluteReplacement(proxyBase));
  }

  /** An attribute with a listed name is matched at its start once the text after its opening quote
      is recognised by `AbsoluteTail`: group 1 is the name as written, group 2 the address and group 3
      the path after the host, undefined when it is empty. */
  lemma AbsoluteMatch(s: string, name: string, q1: char, t: string, domain: string, d: nat, e: nat, k: nat)
    requires k < |AbsoluteAttrs| && Lower(name) == AbsoluteAttrs[k] && q1 in Quotes
    requires AttrText(s, name, q1, t)
    requires AbsoluteTail(t, domain) == Some((d, e))
    ensures AbsoluteAt(s, 0, domain)
            == Some(Hit(|name| + 2 + e + 1, AbsoluteGroups(name, t[..e], if e == d then None else Some(t[d..e]))))
  {
    ListsHaveNoEquals();
    AttrHeadOf(s, name, q1, t, AbsoluteAttrs, k);
    AbsoluteAtOf(s, |name| + 2, t, domain, d, e);
  }

  /** After a recognised head ending at `b`, the absolute pattern matches exactly when the text `t`
      after the opening quote does. */
  lemma AbsoluteAtOf(s: string, b: nat, t: string, domain: string, d: nat, e: nat)
    requires AttrHead(s, 0, AbsoluteAttrs) == Some(b) && s[b..] == t
    requires AbsoluteTail(t, domain) == Some((d, e))
    ensures AbsoluteAt(s, 0, domain)
            == Some(Hit(b + e + 1, AbsoluteGroups(s[0..b - 2], t[..e], if e == d then None else Some(t[d..e]))))
  {
  }

  /** The text after the opening quote of an absolute attribute is matched up to its closing quote:
      `http:`, `https:` (in any case) or nothing, `//`, the host in any case, a path without quotes
      and a quote. */
  lemma AbsoluteTailMatch(t: string, scheme: string, host: string, path: string, q2: char, domain: string)
    requires Lower(scheme) == "https:" || Lower(scheme) == "http:" || scheme == ""
    requires Lower(host) == Lower(domain) && Avoids(path, Quotes) && q2 in Quotes
    requires AddressText(t, scheme + "//", host, path, q2)
    ensures var d := |scheme| + 2 + |host|;
            AbsoluteTail(t, domain) == Some((d, d + |path|)) && d + |path| == |t| - 1
  {
    var h := |scheme|;
    LeadSlices(t, scheme);
    SchemeEndOfToken(t, 0, scheme);
    HostAt(t, h + 2, host, domain);
    PathRun(t, h + 2 + |host|, path);
    LowerLength(host, domain);
  }

  /** The lead `scheme//` of an address, as slices. */
  lemma LeadSlices(t: string, scheme: string)
    requires |scheme| + 2 <= |t| && t[..|scheme| + 2] == scheme + "//"
    ensures t[0..|scheme|] == scheme && t[|scheme|..|scheme| + 2] == "//"
  {
    var h := |scheme|;
    assert t[0..h] == t[..h + 2][..h];
    assert t[h..h + 2] == t[..h + 2][h..];
  }

  lemma LowerLength(a: string, b: string)
    requires Lower(a) == Lower(b)
    ensures |a| == |b|
  {
    assert |Lower(a)| == |a|;
  }

  /** The optional scheme of an absolute attribute is recognised whatever its letter case. */
  lemma SchemeEndOfToken(s: string, b: nat, scheme: string)
    requires Lower(scheme) == "https:" || Lower(scheme) == "http:" || scheme == ""
    requires b + |scheme| + 2 <= |s| && s[b..b + |scheme|] == scheme
    requires s[b + |scheme|..b + |scheme| + 2] == "//"
    ensures SchemeEndCi(s, b) == b + |scheme|
  {
    assert |Lower(scheme)| == |scheme|;
    var h := b + |scheme|;
    assert s[h] == '/' by { assert s[h] == s[h..h + 2][0]; }
    forall k | 0 <= k < |scheme| ensures LowerChar(s[b + k]) == Lower(scheme)[k] {
      assert s[b + k] == s[b..b + |scheme|][k] == scheme[k];
    }
    if Lower(scheme) == "http:" {
      assert LowerChar(s[b + 4]) == ':' != "https:"[4];
      assert !HasAtCi(s, b, "https:");
    } else if scheme == "" {
      assert LowerChar(s[b + 0]) != "https:"[0] && LowerChar(s[b + 0]) != "http:"[0];
    }
  }

  /** The absolute pass, as intended, on one attribute whose address runs to its last character: the
      name as written, then the proxy base followed by the path, in double quotes. */
  lemma AbsoluteRewrite(s: string, name: string, q1: char, t: string, domain: string, proxyBase: string,
                        d: nat, e: nat, k: nat)
    requires k < |AbsoluteAttrs| && Lower(name) == AbsoluteAttrs[k] && q1 in Quotes
    requires AttrText(s, name, q1, t)
    requires AbsoluteTail(t, domain) == Some((d, e)) && e == |t| - 1
    ensures AbsolutePass(s, domain, proxyBase) == name + "=\"" + proxyBase + t[d..e] + "\""
  {
    AbsoluteMatch(s, name, q1, t, domain, d, e, k);
    WholeMatch(AbsoluteMatcher(domain), s, AbsoluteReplacement(proxyBase));
    assert e == d ==> t[d..e] == "";
  }

  /** The absolute pass as written prints `undefined` where the address is just the host:
      `content="https://HOST"` becomes `content="<proxy base>undefined"`, where `AbsoluteRewrite` gives
      `content="<proxy base>"`. */
  lemma UndefinedPath(s: string, name: string, q1: char, t: string, domain: string, proxyBase: string,
                      d: nat, k: nat)
    requires k < |AbsoluteAttrs| && Lower(name) == AbsoluteAttrs[k] && q1 in Quotes
    requires AttrText(s, name, q1, t)
    requires AbsoluteTail(t, domain) == Some((d, d)) && d == |t| - 1
    ensures AbsolutePassAsWritten(s, domain, proxyBase) == name + "=\"" + proxyBase + "undefined\""
  {
    AbsoluteMatch(s, name, q1, t, domain, d, d, k);
    WholeMatch(AbsoluteMatcher(domain), s, AbsoluteReplacementAsWritten(proxyBase));
  }

  /** Where the path is defined, the callback as written and as intended agree. */
  lemma AbsoluteReplacementsAgree(proxyBase: string, m: string, g: AbsoluteGroups)
    requires g.path.Some?
    ensures AbsoluteReplacementAsWritten(proxyBase)(m, g) == AbsoluteReplacement(proxyBase)(m, g)
  {
  }

  // ---------------------------------------------------------------- root-relative addresses

  /** `(href|src|action|content|data-src|data-href)=["']\/([^"']*)["']` with the `i` flag, tried at
      index `i`. Group 1 is the attribute, group 2 the address after its leading `/`. */
  function RootAt(s: string, i: nat): (r: Option<Hit<Captures>>)
    ensures r.Some? ==> i < r.value.end <= |s| && s[r.value.end - 1] in Quotes
    ensures r.Some? ==> |r.value.groups.groups| == 2
                        && r.value.groups.groups[0].Some? && r.value.groups.groups[1].Some?
  {
    match AttrHead(s, i, LinkAttrs)
    case None => None
    case Some(b) =>
      var t := s[b..];
      match RootTail(t)
      case None => None
      case Some(e) => Some(Hit(b + e + 1, Captures([Some(s[i..b - 2]), Some(t[1..e])], s[..i], t[e + 1..])))
  }

  /** `\/([^"']*)["']` at the start of `t`, the text after the opening quote: the index of the closing
      quote. */
  function RootTail(t: string): (e: Option<nat>)
    ensures e.Some? ==> 1 <= e.value < |t| && t[e.value] in Quotes && t[0] == '/'
    ensures e.Some? ==> Avoids(t[1..e.value], Quotes)
  {
    if |t| == 0 || t[0] != '/' then None
    else
      var e := RunEnd(t, 1, Quotes);
      if e == |t| then None else Some(e)
  }

  function RootMatcher(): Matcher<Captures> {
    (s: string, i: nat) => RootAt(s, i)
  }

  /** `$1="${proxyBaseUrl}/$2"`. */
  function RootTemplate(proxyBase: string): string {
    "$1=\"" + proxyBase + "/$2\""
  }

  function TemplateReplacement(template: string): (string, Captures) -> string {
    (m: string, c: Captures) => Expand(template, m, c)
  }

  /** The root-relative pass. A document with no `=` is left as it is. */
  function RootPass(content: string, proxyBase: string): (r: string)
    ensures '=' !in content ==> r == content
  {
    RootNeedsEquals(content);
    ReplaceAll(content, RootMatcher(), TemplateReplacement(RootTemplate(proxyBase)))
  }

  lemma RootNeedsEquals(content: string)
    ensures '=' !in content ==> forall k :: 0 <= k < |content| ==> !HitAt(RootMatcher(), content, k)
  {
  }

  /** For a proxy base without `$`, the template gives the attribute, `="`, the proxy base, `/`, the
      rest of the address and `"`. */
  lemma RootTemplateFill(proxyBase: string, m: string, c: Captures)
    requires '$' !in proxyBase
    requires |c.groups| == 2 && c.groups[0].Some? && c.groups[1].Some?
    ensures Expand(RootTemplate(proxyBase), m, c)
            == c.groups[0].value + "=\"" + proxyBase + "/" + c.groups[1].value + "\""
  {
    var b, a, g := c.before, c.after, c.groups;
    var lit := "=\"" + proxyBase + "/";
    assert '$' !in lit;
    assert RootTemplate(proxyBase) == "$" + ['1'] + (lit + ("$" + ['2'] + "\""));
    GroupReference(1, lit + ("$" + ['2'] + "\""), m, b, a, g);
    LiteralPrefix(lit, "$" + ['2'] + "\"", m, b, a, g);
    GroupReference(2, "\"", m, b, a, g);
    LiteralOnly("\"", m, c);
  }

  /** A root-relative address followed by a quote is matched up to that quote. */
  lemma RootTailMatch(v: string, q2: char)
    requires q2 in Quotes && Avoids(v, Quotes)
    ensures var t := "/" + v + [q2];
            RootTail(t) == Some(|v| + 1) && t[1..|v| + 1] == v && t[|v| + 2..] == ""
  {
    var t := "/" + v + [q2];
    forall x | 1 <= x < |t| - 1 ensures t[x] !in Quotes {
      assert t[x] == v[x - 1];
    }
    RunEndOfRun(t, 1, |t| - 1, Quotes);
    assert t[1..|t| - 1] == v;
  }

  /** An attribute with a listed name is matched at its start exactly when the text after its opening
      quote is a root-relative address followed by a quote: group 1 is the name as written, group 2 the
      address after its leading `/`. */
  lemma RootMatch(s: string, name: string, q1: char, t: string, k: nat)
    requires k < |LinkAttrs| && Lower(name) == LinkAttrs[k] && q1 in Quotes
    requires AttrText(s, name, q1, t)
    ensures RootAt(s, 0)
            == match RootTail(t)
               case None => None
               case Some(e) => Some(Hit(|name| + 2 + e + 1, Captures([Some(name), Some(t[1..e])], "", t[e + 1..])))
  {
    ListsHaveNoEquals();
    AttrHeadOf(s, name, q1, t, LinkAttrs, k);
    RootAtOf(s, |name| + 2, t);
  }

  /** After a recognised head ending at `b`, the root-relative pattern matches exactly when the text
      `t` after the opening quote does. */
  lemma RootAtOf(s: string, b: nat, t: string)
    requires AttrHead(s, 0, LinkAttrs) == Some(b) && s[b..] == t
    ensures RootAt(s, 0)
            == match RootTail(t)
               case None => None
               case Some(e) => Some(Hit(b + e + 1, Captures([Some(s[0..b - 2]), Some(t[1..e])], "", t[e + 1..])))
  {
    assert s[..0] == "";
  }

  /** A root-relative attribute whose address runs to its last character is put under the proxy base,
      in double quotes, keeping the name as written. */
  lemma RootRewrite(s: string, name: string, q1: char, t: string, proxyBase: string, e: nat, k: nat)
    requires k < |LinkAttrs| && Lower(name) == LinkAttrs[k] && q1 in Quotes
    requires AttrText(s, name, q1, t)
    requires RootTail(t) == Some(e) && e == |t| - 1
    requires '$' !in proxyBase
    ensures RootPass(s, proxyBase) == name + "=\"" + proxyBase + "/" + t[1..e] + "\""
  {
    RootMatch(s, name, q1, t, k);
    WholeMatch(RootMatcher(), s, TemplateReplacement(RootTemplate(proxyBase)));
    RootTemplateFill(proxyBase, s, RootAt(s, 0).value.groups);
  }

  // ---------------------------------------------------------------- relative addresses

  /** `[a-z]+:` with the `i` flag matches at `b`: ASCII letters, at least one, then `:`. */
  predicate SchemeLike(s: string, b: nat) {
    exists e :: b < e < |s| && s[e] == ':' && forall x :: b <= x < e ==> IsAsciiLetter(s[x])
  }

  /** The lookahead `(?![a-z]+:|\/\/|\/)` refuses the value starting at `b`. */
  predicate Excluded(s: string, b: nat) {
    (b < |s| && s[b] == '/') || SchemeLike(s, b)
  }

  /** `(href|src|action|content|data-src|data-href)=["']((?![a-z]+:|\/\/|\/)([^"']*))["']` with the
      `i` flag, tried at index `i`. Groups 2 and 3 are both the value. */
  function RelativeAt(s: string, i: nat): (r: Option<Hit<Captures>>)
    ensures r.Some? ==> i < r.value.end <= |s| && s[r.value.end - 1] in Quotes
    ensures r.Some? ==> |r.value.groups.groups| == 3
                        && r.value.groups.groups[0].Some? && r.value.groups.groups[1].Some?
  {
    match AttrHead(s, i, LinkAttrs)
    case None => None
    case Some(b) =>
      var t := s[b..];
      match RelativeTail(t)
      case None => None
      case Some(e) => Some(Hit(b + e + 1, Captures([Some(s[i..b - 2]), Some(t[..e]), Some(t[..e])], s[..i], t[e + 1..])))
  }

  /** `(?![a-z]+:|\/\/|\/)([^"']*)["']` at the start of `t`, the text after the opening quote: the
      index of the closing quote. */
  function RelativeTail(t: string): (e: Option<nat>)
    ensures e.Some? ==> e.value < |t| && t[e.value] in Quotes && !Excluded(t, 0)
    ensures e.Some? ==> Avoids(t[..e.value], Quotes)
  {
    if Excluded(t, 0) then None
    else
      var e := RunEnd(t, 0, Quotes);
      if e == |t| then None else Some(e)
  }

  function RelativeMatcher(): Matcher<Captures> {
    (s: string, i: nat) => RelativeAt(s, i)
  }

  /** `$1="${proxyBaseUrl}${targetPathBase}$2"`: the source pastes the directory of the current
      document into a replacement template, so a `$` in it is interpreted. */
  function RelativeTemplate(proxyBase: string, pathBase: string): string {
    "$1=\"" + proxyBase + pathBase + "$2\""
  }

  /** The relative pass as written. A document with no `=` is left as it is. */
  function RelativePassAsWritten(content: string, proxyBase: string, pathBase: string): (r: string)
    ensures '=' !in content ==> r == content
  {
    RelativeNeedsEquals(content);
    ReplaceAll(content, RelativeMatcher(), TemplateReplacement(RelativeTemplate(proxyBase, pathBase)))
  }

  /** The replacement as intended: the proxy base and the directory inserted literally. */
  function RelativeReplacement(proxyBase: string, pathBase: string): (string, Captures) -> string {
    (m: string, c: Captures) =>
      (if |c.groups| > 0 then c.groups[0].GetOr("") else "") + "=\"" + proxyBase + pathBase
      + (if |c.groups| > 1 then c.groups[1].GetOr("") else "") + "\""
  }

  /** The relative pass as intended, with the same frame. */
  function RelativePass(content: string, proxyBase: string, pathBase: string): (r: string)
    ensures '=' !in content ==> r == content
  {
    RelativeNeedsEquals(content);
    ReplaceAll(content, RelativeMatcher(), RelativeReplacement(proxyBase, pathBase))
  }

  lemma RelativeNeedsEquals(content: string)
    ensures '=' !in content ==> forall k :: 0 <= k < |content| ==> !HitAt(RelativeMatcher(), content, k)
  {
  }

  /** Without `$` in the proxy base and the directory, the relative pass as written gives the intended
      text. */
  lemma RelativePassesAgree(content: string, proxyBase: string, pathBase: string)
    requires '$' !in proxyBase + pathBase
    ensures RelativePassAsWritten(content, proxyBase, pathBase) == RelativePass(content, proxyBase, pathBase)
  {
    var f := TemplateReplacement(RelativeTemplate(proxyBase, pathBase));
    var g := RelativeReplacement(proxyBase, pathBase);
    forall k | 0 <= k < |content| && HitAt(RelativeMatcher(), content, k)
      ensures f(content[k..RelativeAt(content, k).value.end], RelativeAt(content, k).value.groups)
              == g(content[k..RelativeAt(content, k).value.end], RelativeAt(content, k).value.groups)
    {
      var h := RelativeAt(content, k).value;
      RelativeReplacementsAgree(proxyBase, pathBase, content[k..h.end], h.groups);
    }
    ReplacementsAgree(RelativeMatcher(), content, 0, f, g);
  }

  /** Without `$` in the proxy base and the directory, the template as written gives the intended
      text. */
  lemma RelativeReplacementsAgree(proxyBase: string, pathBase: string, m: string, c: Captures)
    requires '$' !in proxyBase + pathBase
    requires |c.groups| == 3 && c.groups[0].Some? && c.groups[1].Some?
    ensures Expand(RelativeTemplate(proxyBase, pathBase), m, c) == RelativeReplacement(proxyBase, pathBase)(m, c)
  {
    var b, a, g := c.before, c.after, c.groups;
    var lit := "=\"" + proxyBase + pathBase;
    assert lit == "=\"" + (proxyBase + pathBase);
    assert '$' !in lit;
    assert RelativeTemplate(proxyBase, pathBase) == "$" + ['1'] + (lit + ("$" + ['2'] + "\""));
    GroupReference(1, lit + ("$" + ['2'] + "\""), m, b, a, g);
    LiteralPrefix(lit, "$" + ['2'] + "\"", m, b, a, g);
    GroupReference(2, "\"", m, b, a, g);
    LiteralOnly("\"", m, c);
  }

  /** `src="x"` is the attribute `src` holding the relative value `x`, so `DollarRewrite` applies to it:
      in a document whose directory is `/$1/`, the pass as written gives `src="<proxy base>/src/x"`, where
      `RelativeRewrite` gives `src="<proxy base>/$1/x"`. */
  lemma SourceX()
    ensures AttrText("src=\"x\"", "src", '"', "x\"") && RelativeTail("x\"") == Some(1)
    ensures Lower("src") == LinkAttrs[1]
  {
    var t := "x" + ['"'];
    assert !SchemeLike("x", 0) && "x"[0] != '/';
    assert Avoids("x", Quotes);
    RelativeTailMatch("x", '"');
    AttrTextOfParts("src", '"', t);
    assert "src" + "=" + ['"'] + t == "src=\"x\"";
  }

  /** With the directory `/$1/`, the pass as written puts the name of the attribute where the directory
      should be, for any proxy base without `$`. */
  lemma DollarRewrite(s: string, name: string, q1: char, t: string, proxyBase: string, e: nat, k: nat)
    requires k < |LinkAttrs| && Lower(name) == LinkAttrs[k] && q1 in Quotes
    requires AttrText(s, name, q1, t)
    requires RelativeTail(t) == Some(e) && e == |t| - 1
    requires '$' !in proxyBase
    ensures RelativePassAsWritten(s, proxyBase, "/$1/") == name + "=\"" + proxyBase + "/" + name + "/" + t[..e] + "\""
  {
    RelativeRewriteAsWritten(s, name, q1, t, proxyBase, "/$1/", e, k);
    DollarTemplate(proxyBase, s, Captures([Some(name), Some(t[..e]), Some(t[..e])], "", ""));
  }

  /** The template for the directory `/$1/` repeats group 1 where the directory should be. */
  lemma DollarTemplate(proxyBase: string, m: string, c: Captures)
    requires '$' !in proxyBase
    requires |c.groups| == 3 && c.groups[0].Some? && c.groups[1].Some?
    ensures Expand(RelativeTemplate(proxyBase, "/$1/"), m, c)
            == c.groups[0].value + "=\"" + proxyBase + "/" + c.groups[0].value + "/" + c.groups[1].value + "\""
  {
    var lit := "=\"" + proxyBase + "/";
    var t1 := "$" + ['1'] + "/$2\"";
    assert '$' !in lit;
    assert RelativeTemplate(proxyBase, "/$1/") == "$" + ['1'] + (lit + t1);
    var b, a, g := c.before, c.after, c.groups;
    DollarTail(m, c);
    LiteralPrefix(lit, t1, m, b, a, g);
    GroupReference(1, lit + t1, m, b, a, g);
  }

  /** The end of that template, `$1/$2"`: group 1, a slash, group 2 and the closing quote. */
  lemma DollarTail(m: string, c: Captures)
    requires |c.groups| == 3 && c.groups[0].Some? && c.groups[1].Some?
    ensures Substitute("$" + ['1'] + "/$2\"", m, c.before, c.after, c.groups)
            == c.groups[0].value + "/" + c.groups[1].value + "\""
  {
    var b, a, g := c.before, c.after, c.groups;
    var t2 := "$" + ['2'] + "\"";
    assert "$" + ['1'] + "/$2\"" == "$" + ['1'] + ("/" + t2);
    GroupReference(2, "\"", m, b, a, g);
    LiteralOnly("\"", m, c);
    LiteralPrefix("/", t2, m, b, a, g);
    GroupReference(1, "/" + t2, m, b, a, g);
  }

  /** A relative value followed by a quote is matched up to that quote. */
  lemma RelativeTailMatch(v: string, q2: char)
    requires q2 in Quotes && Avoids(v, Quotes) && !("/" <= v) && !SchemeLike(v, 0)
    ensures var t := v + [q2];
            RelativeTail(t) == Some(|v|) && t[..|v|] == v && t[|v| + 1..] == ""
  {
    var t := v + [q2];
    assert t[..|v|] == v;
    SchemeLikeOfValue(t, 0, v, q2);
    forall x | 0 <= x < |t| - 1 ensures t[x] !in Quotes {
      assert t[x] == v[x];
    }
    RunEndOfRun(t, 0, |t| - 1, Quotes);
  }

  /** An attribute with a listed name is matched at its start exactly when the text after its opening
      quote is a relative value followed by a quote: group 1 is the name as written, groups 2 and 3 the
      value. */
  lemma RelativeMatch(s: string, name: string, q1: char, t: string, k: nat)
    requires k < |LinkAttrs| && Lower(name) == LinkAttrs[k] && q1 in Quotes
    requires AttrText(s, name, q1, t)
    ensures RelativeAt(s, 0)
            == match RelativeTail(t)
               case None => None
               case Some(e) =>
                 Some(Hit(|name| + 2 + e + 1, Captures([Some(name), Some(t[..e]), Some(t[..e])], "", t[e + 1..])))
  {
    ListsHaveNoEquals();
    AttrHeadOf(s, name, q1, t, LinkAttrs, k);
    RelativeAtOf(s, |name| + 2, t);
  }

  /** After a recognised head ending at `b`, the relative pattern matches exactly when the text `t`
      after the opening quote does. */
  lemma RelativeAtOf(s: string, b: nat, t: string)
    requires AttrHead(s, 0, LinkAttrs) == Some(b) && s[b..] == t
    ensures RelativeAt(s, 0)
            == match RelativeTail(t)
               case None => None
               case Some(e) =>
                 Some(Hit(b + e + 1, Captures([Some(s[0..b - 2]), Some(t[..e]), Some(t[..e])], "", t[e + 1..])))
  {
    assert s[..0] == "";
  }

  /** The relative pass, as intended, resolves a relative attribute value against the directory of the
      current document, under the proxy base, without collapsing `.` or `..`. */
  lemma RelativeRewrite(s: string, name: string, q1: char, t: string, proxyBase: string, pathBase: string,
                        e: nat, k: nat)
    requires k < |LinkAttrs| && Lower(name) == LinkAttrs[k] && q1 in Quotes
    requires AttrText(s, name, q1, t)
    requires RelativeTail(t) == Some(e) && e == |t| - 1
    ensures RelativePass(s, proxyBase, pathBase) == name + "=\"" + proxyBase + pathBase + t[..e] + "\""
  {
    RelativeMatch(s, name, q1, t, k);
    WholeMatch(RelativeMatcher(), s, RelativeReplacement(proxyBase, pathBase));
  }

  /** The relative pass as written fills its template with the name and the value. */
  lemma RelativeRewriteAsWritten(s: string, name: string, q1: char, t: string, proxyBase: string,
                                 pathBase: string, e: nat, k: nat)
    requires k < |LinkAttrs| && Lower(name) == LinkAttrs[k] && q1 in Quotes
    requires AttrText(s, name, q1, t)
    requires RelativeTail(t) == Some(e) && e == |t| - 1
    ensures RelativePassAsWritten(s, proxyBase, pathBase)
            == Expand(RelativeTemplate(proxyBase, pathBase), s, Captures([Some(name), Some(t[..e]), Some(t[..e])], "", ""))
  {
    RelativeMatch(s, name, q1, t, k);
    assert t[e + 1..] == "";
    WholeMatch(RelativeMatcher(), s, TemplateReplacement(RelativeTemplate(proxyBase, pathBase)));
  }

  /** A value followed by a quote looks like a scheme only if the value alone does. */
  lemma SchemeLikeOfValue(s: string, b: nat, v: string, q: char)
    requires q in Quotes && b + |v| < |s| && s[b..b + |v|] == v && s[b + |v|] == q
    ensures SchemeLike(s, b) ==> SchemeLike(v, 0)
  {
    if SchemeLike(s, b) {
      var e :| b < e < |s| && s[e] == ':' && forall x :: b <= x < e ==> IsAsciiLetter(s[x]);
      assert !IsAsciiLetter(s[b + |v|]);
      assert e <= b + |v|;
      assert e < b + |v|;
      assert v[e - b] == ':';
      forall x | 0 <= x < e - b ensures IsAsciiLetter(v[x]) {
        assert v[x] == s[b + x];
      }
    }
  }
}
