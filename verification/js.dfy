/** `rewriteJsPaths` (netlify/edge-functions/proxy-handler.ts): quoted absolute and scheme-relative
    addresses of the target host inside a script are put under the proxy base, in two global,
    case-insensitive replacements. The replacement is a template into which the proxy base is pasted,
    so it is modelled as the template it is. */
module JsRewrite {

  import opened Wrappers
  import opened Strings
  import opened Scan
  import opened Patterns
  import opened Template

  /** Where the part before the host ends when it starts at `j`: `https?://` (with the `i` flag) for
      the absolute pass, `//` for the scheme-relative pass. After `https` fails further on, leaving the
      `s` out cannot help, because `:` would have to stand where the `s` is. */
  function LeadEnd(s: string, j: nat, absolute: bool): (r: Option<nat>)
    ensures r.Some? ==> j < r.value <= |s|
    ensures r.Some? && absolute ==> HasAtCi(s, j, "https://") || HasAtCi(s, j, "http://")
    ensures r.Some? && !absolute ==> OccursAt(s, "//", j)
    ensures r.Some? && absolute ==> LowerChar(s[j]) == 'h'
  {
    if absolute then
      if HasAtCi(s, j, "https://") then
        assert LowerChar(s[j + 0]) == "https://"[0];
        Some(j + 8)
      else if HasAtCi(s, j, "http://") then
        assert LowerChar(s[j + 0]) == "http://"[0];
        Some(j + 7)
      else None
    else if OccursAt(s, "//", j) then Some(j + 2)
    else None
  }

  /** `(['"])https?://HOST([^'"]*?)\1` (absolute) or `(['"])//HOST([^'"]*?)\1`, with the `i` flag,
      tried at index `i`. The lazy class grows until the next character is the opening quote; it cannot
      grow past any quote, so the match exists exactly when the first quote after the host is the same
      as the opening one. Capture 1 is the quote, capture 2 the rest of the address. */
  function QuotedAt(s: string, i: nat, domain: string, absolute: bool): (r: Option<Hit<Captures>>)
    ensures r.Some? ==> i < |s| && s[i] in Quotes && i < r.value.end <= |s| && s[r.value.end - 1] == s[i]
    ensures r.Some? ==> |r.value.groups.groups| == 2 && r.value.groups.groups[0] == Some([s[i]])
    ensures r.Some? ==> r.value.groups.groups[1].Some? && Avoids(r.value.groups.groups[1].value, Quotes)
    ensures r.Some? && !absolute ==> OccursAt(s, "//", i + 1)
    ensures r.Some? && absolute ==> i + 1 < |s| && LowerChar(s[i + 1]) == 'h'
  {
    if i >= |s| || s[i] !in Quotes then None
    else
      var t := s[i + 1..];
      match QuotedTail(t, s[i], domain, absolute)
      case None => None
      case Some((d, e)) =>
        assert s[i + 1..i + 3] == t[..2];
        Some(Hit(i + 1 + e + 1, Captures([Some([s[i]]), Some(t[d..e])], s[..i], t[e + 1..])))
  }

  /** The pattern after the opening quote `q`, matched at the start of `t`, the text after that quote:
      the index `d` where the host ends and the index `e` of the closing quote. */
  function QuotedTail(t: string, q: char, domain: string, absolute: bool): (r: Option<(nat, nat)>)
    ensures r.Some? ==> var (d, e) := r.value; d <= e < |t| && t[e] == q && Avoids(t[d..e], Quotes)
    ensures r.Some? && !absolute ==> OccursAt(t, "//", 0)
    ensures r.Some? && absolute ==> 0 < |t| && LowerChar(t[0]) == 'h'
  {
    match LeadEnd(t, 0, absolute)
    case None => None
    case Some(d0) => HostTail(t, d0, q, domain)
  }

  /** `HOST([^'"]*?)\1` at `d0`: the host up to case, then the shortest run up to the quote `q`. */
  function HostTail(t: string, d0: nat, q: char, domain: string): (r: Option<(nat, nat)>)
    requires d0 <= |t|
    ensures r.Some? ==> var (d, e) := r.value; d0 <= d <= e < |t| && t[e] == q && Avoids(t[d..e], Quotes)
  {
    if !HasAtCi(t, d0, Lower(domain)) then None
    else
      var d := d0 + |domain|;
      var e := RunEnd(t, d, Quotes);
      if e < |t| && t[e] == q then Some((d, e)) else None
  }

  /** After an opening quote `q`, the pattern matches exactly when the text `t` after that quote does. */
  lemma QuotedMatch(s: string, q: char, t: string, domain: string, absolute: bool)
    requires q in Quotes && |s| > 0 && s[0] == q && s[1..] == t
    ensures QuotedAt(s, 0, domain, absolute)
            == match QuotedTail(t, q, domain, absolute)
               case None => None
               case Some((d, e)) => Some(Hit(1 + e + 1, Captures([Some([q]), Some(t[d..e])], "", t[e + 1..])))
  {
    assert s[..0] == "";
  }

  /** `$1${proxyBaseUrl}$2$1`. */
  function JsTemplate(proxyBase: string): string {
    "$1" + proxyBase + "$2$1"
  }

  function QuotedMatcher(domain: string, absolute: bool): Matcher<Captures> {
    (s: string, i: nat) => QuotedAt(s, i, domain, absolute)
  }

  function TemplateReplacement(proxyBase: string): (string, Captures) -> string {
    (m: string, c: Captures) => Expand(JsTemplate(proxyBase), m, c)
  }

  /** One of the two passes. Every match starts at a quote, so a script without quotes is left as it
      is. */
  function JsPass(content: string, domain: string, proxyBase: string, absolute: bool): (r: string)
    ensures Avoids(content, Quotes) ==> r == content
  {
    ReplaceAll(content, QuotedMatcher(domain, absolute), TemplateReplacement(proxyBase))
  }

  /** `rewriteJsPaths(content, targetDomain, proxyBaseUrl)`: the absolute pass, then the scheme-relative
      pass. A script without quotes is left as it is. */
  function RewriteJs(content: string, domain: string, proxyBase: string): (r: string)
    ensures Avoids(content, Quotes) ==> r == content
  {
    JsPass(JsPass(content, domain, proxyBase, true), domain, proxyBase, false)
  }

  /** For a proxy base without `$`, the template gives the quote, the proxy base, the rest of the
      address and the same quote again. */
  lemma TemplateFill(proxyBase: string, matched: string, c: Captures)
    requires '$' !in proxyBase
    requires |c.groups| == 2 && c.groups[0].Some? && c.groups[1].Some?
    ensures Expand(JsTemplate(proxyBase), matched, c)
            == c.groups[0].value + proxyBase + c.groups[1].value + c.groups[0].value
  {
    var q, path := c.groups[0].value, c.groups[1].value;
    var b, a, g := c.before, c.after, c.groups;
    assert JsTemplate(proxyBase) == "$" + ['1'] + (proxyBase + ("$" + ['2'] + ("$" + ['1'] + "")));
    GroupReference(1, proxyBase + ("$" + ['2'] + ("$" + ['1'] + "")), matched, b, a, g);
    LiteralPrefix(proxyBase, "$" + ['2'] + ("$" + ['1'] + ""), matched, b, a, g);
    GroupReference(2, "$" + ['1'] + "", matched, b, a, g);
    GroupReference(1, "", matched, b, a, g);
  }

  /** A quoted address of the target host, with `http` or `https` in any letter case, becomes the
      proxy base followed by the rest of the address, in the same quotes, and the scheme-relative pass
      after it leaves the result alone. */
  lemma AbsoluteToken(s: string, q: char, t: string, domain: string, proxyBase: string, d: nat, e: nat)
    requires q in Quotes && |s| > 0 && s[0] == q && s[1..] == t
    requires QuotedTail(t, q, domain, true) == Some((d, e)) && e == |t| - 1
    requires "http" <= proxyBase && '$' !in proxyBase && Avoids(proxyBase, Quotes)
    ensures RewriteJs(s, domain, proxyBase) == [q] + proxyBase + t[d..e] + [q]
  {
    var path := t[d..e];
    var body := proxyBase + path;
    var mid := [q] + body + [q];
    AbsoluteFirstPass(s, q, t, domain, proxyBase, d, e);
    Quoted(q, proxyBase, path);
    assert RewriteJs(s, domain, proxyBase) == JsPass(mid, domain, proxyBase, false);
    AvoidsBoth(proxyBase, path, Quotes);
    assert body[0] == 'h';
    QuotesOnlyAtEnds(q, body, domain, proxyBase);
  }

  lemma Quoted(q: char, a: string, b: string)
    ensures [q] + a + b + [q] == [q] + (a + b) + [q]
  {
  }

  lemma AvoidsBoth(a: string, b: string, stops: set<char>)
    requires Avoids(a, stops) && Avoids(b, stops)
    ensures Avoids(a + b, stops)
  {
    forall k | 0 <= k < |a + b| ensures (a + b)[k] !in stops {
      if k >= |a| { assert (a + b)[k] == b[k - |a|]; }
    }
  }

  /** The absolute pass on one quoted address of the target host. */
  lemma AbsoluteFirstPass(s: string, q: char, t: string, domain: string, proxyBase: string, d: nat, e: nat)
    requires q in Quotes && |s| > 0 && s[0] == q && s[1..] == t
    requires QuotedTail(t, q, domain, true) == Some((d, e)) && e == |t| - 1
    requires '$' !in proxyBase
    ensures JsPass(s, domain, proxyBase, true) == [q] + proxyBase + t[d..e] + [q]
  {
    QuotedMatch(s, q, t, domain, true);
    WholeMatch(QuotedMatcher(domain, true), s, TemplateReplacement(proxyBase));
    TemplateFill(proxyBase, s, QuotedAt(s, 0, domain, true).value.groups);
  }

  /** The text after the opening quote of an absolute address of the target host is matched up to its
      closing quote, with the path as what follows the host. */
  lemma AbsoluteTail(t: string, q: char, lead: string, host: string, path: string, domain: string)
    requires q in Quotes
    requires Lower(lead) == "https://" || Lower(lead) == "http://"
    requires Lower(host) == Lower(domain)
    requires Avoids(path, Quotes)
    requires AddressText(t, lead, host, path, q)
    ensures var d := |lead| + |host|;
            QuotedTail(t, q, domain, true) == Some((d, d + |path|)) && d + |path| == |t| - 1
  {
    LeadOf(t, lead);
    HostAt(t, |lead|, host, domain);
    PathRun(t, |lead| + |host|, path);
    assert |Lower(host)| == |host| && |Lower(domain)| == |domain|;
    QuotedTailOf(t, q, domain, true, |lead|, |lead| + |host| + |path|);
  }

  /** The tail matches when its lead, the host and a quote-free run up to the quote `q` are found in
      turn. */
  lemma QuotedTailOf(t: string, q: char, domain: string, absolute: bool, d0: nat, e: nat)
    requires LeadEnd(t, 0, absolute) == Some(d0) && HasAtCi(t, d0, Lower(domain))
    requires RunEnd(t, d0 + |domain|, Quotes) == e && e < |t| && t[e] == q
    ensures QuotedTail(t, q, domain, absolute) == Some((d0 + |domain|, e))
  {
    HostTailOf(t, d0, q, domain, e);
  }

  lemma HostTailOf(t: string, d0: nat, q: char, domain: string, e: nat)
    requires HasAtCi(t, d0, Lower(domain))
    requires RunEnd(t, d0 + |domain|, Quotes) == e && e < |t| && t[e] == q
    ensures HostTail(t, d0, q, domain) == Some((d0 + |domain|, e))
  {
  }

  /** `https?://` in any letter case is the lead of the absolute pass, whatever follows it. */
  lemma LeadOf(t: string, lead: string)
    requires Lower(lead) == "https://" || Lower(lead) == "http://"
    requires |lead| <= |t| && t[..|lead|] == lead
    ensures LeadEnd(t, 0, true) == Some(|lead|)
  {
    forall k | 0 <= k < |lead| ensures LowerChar(t[k]) == Lower(lead)[k] {
      assert t[k] == t[..|lead|][k];
    }
    if Lower(lead) == "http://" {
      assert LowerChar(t[0 + 4]) == ':' != "https://"[4];
    }
  }

  /** The scheme-relative pass finds nothing in a quoted text that has no other quote inside and does
      not start with `//`. */
  lemma QuotesOnlyAtEnds(q: char, body: string, domain: string, proxyBase: string)
    requires q in Quotes && Avoids(body, Quotes) && !("//" <= body)
    ensures JsPass([q] + body + [q], domain, proxyBase, false) == [q] + body + [q]
  {
    var s := [q] + body + [q];
    var m := QuotedMatcher(domain, false);
    forall k | 0 <= k < |s| ensures !HitAt(m, s, k) {
      if 0 < k < |s| - 1 {
        assert s[k] == body[k - 1];
      } else if k == 0 && |body| >= 2 {
        assert s[1..3] == body[..2];
      }
    }
    NoHitUnchanged(m, s, 0, TemplateReplacement(proxyBase));
    assert s[0..] == s;
  }

  /** A quoted scheme-relative address of the target host, with no quote before its closing one,
      becomes the proxy base followed by the rest of the address, in the same quotes; the absolute pass
      before it leaves it alone. */
  lemma RelativeToken(s: string, q: char, t: string, domain: string, proxyBase: string, d: nat, e: nat)
    requires q in Quotes && |s| > 0 && s[0] == q && s[1..] == t
    requires QuotedTail(t, q, domain, false) == Some((d, e)) && e == |t| - 1
    requires Avoids(t[..e], Quotes)
    requires '$' !in proxyBase
    ensures RewriteJs(s, domain, proxyBase) == [q] + proxyBase + t[d..e] + [q]
  {
    AbsolutePassSkips(s, q, t, domain, proxyBase, e);
    QuotedMatch(s, q, t, domain, false);
    WholeMatch(QuotedMatcher(domain, false), s, TemplateReplacement(proxyBase));
    TemplateFill(proxyBase, s, QuotedAt(s, 0, domain, false).value.groups);
  }

  /** The absolute pass finds nothing in a quoted text that starts with `//` and has no quote before
      its closing one. */
  lemma AbsolutePassSkips(s: string, q: char, t: string, domain: string, proxyBase: string, e: nat)
    requires q in Quotes && |s| > 0 && s[0] == q && s[1..] == t
    requires OccursAt(t, "//", 0) && e == |t| - 1 && Avoids(t[..e], Quotes)
    ensures JsPass(s, domain, proxyBase, true) == s
  {
    var m := QuotedMatcher(domain, true);
    forall k | 0 <= k < |s| ensures !HitAt(m, s, k) {
      if 0 < k < |s| - 1 {
        assert s[k] == t[..e][k - 1];
      } else if k == 0 {
        assert s[1] == t[..2][0];
      }
    }
    NoHitUnchanged(m, s, 0, TemplateReplacement(proxyBase));
    assert s[0..] == s;
  }

  /** The text after the opening quote of a scheme-relative address of the target host is matched up to
      its closing quote. */
  lemma RelativeTail(t: string, q: char, host: string, path: string, domain: string)
    requires q in Quotes
    requires Lower(host) == Lower(domain)
    requires Avoids(path, Quotes)
    requires AddressText(t, "//", host, path, q)
    ensures var d := 2 + |host|;
            QuotedTail(t, q, domain, false) == Some((d, d + |path|)) && d + |path| == |t| - 1
  {
    assert t[0..2] == t[..2];
    HostAt(t, 2, host, domain);
    PathRun(t, 2 + |host|, path);
    assert |Lower(host)| == |host| && |Lower(domain)| == |domain|;
    QuotedTailOf(t, q, domain, false, 2, 2 + |host| + |path|);
  }
}
