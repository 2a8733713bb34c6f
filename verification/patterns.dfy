/** Pieces of the proxy's regular expressions shared by several rewrite passes
    (netlify/edge-functions/proxy-handler.ts): attribute names, quotes, the `url(...)` token and the
    removal of a leading scheme and host. Each piece is the backtracking analysis of its expression,
    written out as the index where it stops. */
module Patterns {

  import opened Wrappers
  import opened Strings
  import opened Scan

  /** The two quote characters `["']` accepts. */
  const Quotes: set<char> := {'"', '\''}

  /** The characters `[^'")]` refuses. */
  const UrlStops: set<char> := {'"', '\'', ')'}

  /** An optional quote `['"]?` as it can appear in a matched text: nothing, or one quote. */
  predicate OptQuote(q: string) {
    q == "" || q == "'" || q == "\""
  }

  /** None of the characters of `s` is in `stops`. */
  predicate Avoids(s: string, stops: set<char>) {
    forall k :: 0 <= k < |s| ==> s[k] !in stops
  }

  // ---------------------------------------------------------------- attribute names

  /** The attributes of the absolute-address pass. */
  const AbsoluteAttrs: seq<string> :=
    ["href", "src", "action", "content", "data-src", "data-href", "poster", "background"]

  /** The attributes of the root-relative and relative passes. */
  const LinkAttrs: seq<string> := ["href", "src", "action", "content", "data-src", "data-href"]

  /** `(name1|name2|...)=` with the `i` flag, tried at index `i`, alternative by alternative: the
      index in `names` of the first alternative that matches. */
  function AttrAt(s: string, i: nat, names: seq<string>): (r: Option<nat>)
    ensures r.Some? ==> r.value < |names| && HasAtCi(s, i, names[r.value] + "=")
    ensures r.Some? ==> forall k :: 0 <= k < r.value ==> !HasAtCi(s, i, names[k] + "=")
    ensures r.None? ==> forall k :: 0 <= k < |names| ==> !HasAtCi(s, i, names[k] + "=")
    decreases |names|
  {
    if |names| == 0 then None
    else if HasAtCi(s, i, names[0] + "=") then Some(0)
    else
      match AttrAt(s, i, names[1..])
      case None => None
      case Some(k) => Some(k + 1)
  }

  /** No listed name contains `=`. */
  predicate NoEquals(names: seq<string>) {
    forall k :: 0 <= k < |names| ==> '=' !in names[k]
  }

  lemma ListsHaveNoEquals()
    ensures NoEquals(AbsoluteAttrs) && NoEquals(LinkAttrs)
  {
  }

  /** `(name1|name2|...)=["']` with the `i` flag, tried at index `i`: the index just after the opening
      quote. The attribute as written is `s[i..b - 2]`. When no listed name contains `=`, the only
      alternative that can match is the one spelling the text up to the first `=`, so the match is found
      by looking that text up; `AttrHeadIsAlternation` shows that this agrees with trying the
      alternatives in turn. */
  function AttrHead(s: string, i: nat, names: seq<string>): (b: Option<nat>)
    ensures b.Some? ==> i + 2 <= b.value <= |s| && s[b.value - 2] == '=' && s[b.value - 1] in Quotes
  {
    if i > |s| then None
    else
      var e := RunEnd(s, i, {'='});
      if e + 1 < |s| && Lower(s[i..e]) in names && s[e + 1] in Quotes then Some(e + 2) else None
  }

  /** Looking up the text before the first `=` finds the head exactly where the alternation, followed
      by a quote, matches. */
  lemma AttrHeadIsAlternation(s: string, i: nat, names: seq<string>)
    requires NoEquals(names)
    ensures AttrHead(s, i, names)
            == match AttrAt(s, i, names)
               case None => None
               case Some(k) =>
                 var j := i + |names[k]| + 1;
                 if j < |s| && s[j] in Quotes then Some(j + 1) else None
  {
    match AttrAt(s, i, names)
    case None =>
      if i <= |s| {
        var e := RunEnd(s, i, {'='});
        if e < |s| {
          forall k | 0 <= k < |names| ensures Lower(s[i..e]) != names[k] {
            SpelledName(s, i, e, names[k]);
          }
        }
      }
    case Some(k) =>
      NameRun(s, i, names[k]);
      assert names[k] in names;
  }

  /** A listed name followed by `=` at `i` ends the run before the first `=`, and spells it. */
  lemma NameRun(s: string, i: nat, name: string)
    requires '=' !in name && HasAtCi(s, i, name + "=")
    ensures RunEnd(s, i, {'='}) == i + |name| && Lower(s[i..i + |name|]) == name
  {
    HasAtCiParts(s, i, name);
    forall x | i <= x < i + |name| ensures s[x] !in {'='} {
      assert LowerChar(s[i + (x - i)]) == name[x - i] && name[x - i] in name;
    }
    RunEndOfRun(s, i, i + |name|, {'='});
    HasAtCiLower(s, i, name);
  }

  /** The text before an `=` that spells a name, up to case, is that name followed by `=`. */
  lemma SpelledName(s: string, i: nat, e: nat, name: string)
    requires i <= e < |s| && s[e] == '='
    ensures Lower(s[i..e]) == name ==> HasAtCi(s, i, name + "=")
  {
    if Lower(s[i..e]) == name {
      forall x | 0 <= x < |name| + 1 ensures LowerChar(s[i + x]) == (name + "=")[x] {
        if x < |name| {
          assert Lower(s[i..e])[x] == LowerChar(s[i + x]);
        }
      }
    }
  }

  /** `name=` up to ASCII case at `i` means `name` up to case, then `=` itself. */
  lemma HasAtCiParts(s: string, i: nat, name: string)
    requires HasAtCi(s, i, name + "=")
    ensures HasAtCi(s, i, name) && s[i + |name|] == '='
  {
    forall k | 0 <= k < |name| ensures LowerChar(s[i + k]) == name[k] {
      assert (name + "=")[k] == name[k];
    }
    assert LowerChar(s[i + |name|]) == (name + "=")[|name|];
  }

  /** `s` is an attribute: `name`, `=`, the opening quote `q1` and the text `t` after it. Stated by
      slices, so that proofs about `s` need not take a concatenation apart. */
  predicate AttrText(s: string, name: string, q1: char, t: string) {
    && |s| == |name| + 2 + |t|
    && s[..|name|] == name && s[|name|] == '=' && s[|name| + 1] == q1 && s[|name| + 2..] == t
  }

  /** `name`, `=`, `q1` and `t` written one after the other form an attribute. */
  lemma AttrTextOfParts(name: string, q1: char, t: string)
    ensures AttrText(name + "=" + [q1] + t, name, q1, t)
  {
    var s := name + "=" + [q1] + t;
    assert s == name + ("=" + [q1] + t);
  }

  /** The head `name=` and a quote is recognised for a listed name in any letter case, whatever
      follows it. */
  lemma AttrHeadOf(s: string, name: string, q1: char, t: string, names: seq<string>, k: nat)
    requires k < |names| && Lower(name) == names[k] && NoEquals(names)
    requires q1 in Quotes && AttrText(s, name, q1, t)
    ensures AttrHead(s, 0, names) == Some(|name| + 2) && s[0..|name|] == name
  {
    forall x | 0 <= x < |name| ensures s[x] !in {'='} {
      assert s[x] == s[..|name|][x] == name[x] && LowerChar(name[x]) == names[k][x] && names[k][x] in names[k];
    }
    RunEndOfRun(s, 0, |name|, {'='});
    assert s[0..|name|] == s[..|name|];
    assert names[k] in names;
  }

  /** `t` is an address in quotes without its opening quote: `lead`, `host`, `path` and the closing
      quote `q`. Stated by slices, so that proofs about `t` need not take a concatenation apart. */
  predicate AddressText(t: string, lead: string, host: string, path: string, q: char) {
    var d0 := |lead|;
    var d := d0 + |host|;
    && |t| == d + |path| + 1
    && t[..d0] == lead && t[d0..d] == host && t[d..d + |path|] == path && t[d + |path|] == q
  }

  /** `lead`, `host`, `path` and `q` written one after the other form an address. */
  lemma AddressTextOfParts(lead: string, host: string, path: string, q: char)
    ensures AddressText(lead + host + path + [q], lead, host, path, q)
  {
    var t := lead + host + path + [q];
    assert t == lead + (host + path + [q]);
    assert t[..|lead| + |host| + |path|] == lead + host + path;
  }

  /** The host, up to case, at `d0`. */
  lemma HostAt(t: string, d0: nat, host: string, domain: string)
    requires Lower(host) == Lower(domain)
    requires d0 + |host| <= |t| && t[d0..d0 + |host|] == host
    ensures HasAtCi(t, d0, Lower(domain))
  {
    assert |Lower(host)| == |host| && |Lower(domain)| == |domain|;
    forall k | 0 <= k < |host| ensures LowerChar(t[d0 + k]) == Lower(domain)[k] {
      assert t[d0 + k] == t[d0..d0 + |host|][k];
    }
  }

  /** A path without quotes at `d`, running to the last character, ends the run of non-quotes. */
  lemma PathRun(t: string, d: nat, path: string)
    requires Avoids(path, Quotes) && |t| == d + |path| + 1 && t[d..d + |path|] == path
    requires t[d + |path|] in Quotes
    ensures RunEnd(t, d, Quotes) == d + |path|
  {
    forall k | d <= k < |t| - 1 ensures t[k] !in Quotes {
      assert t[k] == t[d..d + |path|][k - d];
    }
    RunEndOfRun(t, d, |t| - 1, Quotes);
  }

  // ---------------------------------------------------------------- url(...)

  /** `url\(['"]?([^'")]+)['"]?\)` with the `i` flag, tried at index `i`: where the match ends and
      capture 1, the address. */
  function UrlCallAt(s: string, i: nat): (r: Option<Hit<string>>)
    ensures r.Some? ==>
              && HasAtCi(s, i, "url(")
              && i + 4 < r.value.end <= |s|
              && s[i + 3] == '(' && s[r.value.end - 1] == ')'
              && |r.value.groups| > 0 && Avoids(r.value.groups, UrlStops)
  {
    if !HasAtCi(s, i, "url(") then None
    else
      assert LowerChar(s[i + 3]) == "url("[3];
      match UrlArgs(s[i + 4..])
      case None => None
      case Some((a, e, n)) => Some(Hit(i + 4 + n, s[i + 4..][a..e]))
  }

  /** `['"]?([^'")]+)['"]?\)` at the start of `t`, the text after `url(`: where the address starts
      and ends and the length of the whole. After the optional quote the class takes the longest run
      it can; giving characters back cannot help, because the run is then followed by a character
      that is neither a quote nor `)`, and leaving the opening quote out cannot help either, because
      the class refuses it. */
  function UrlArgs(t: string): (r: Option<(nat, nat, nat)>)
    ensures r.Some? ==> var (a, e, n) := r.value;
              && a < e < n <= |t| && t[n - 1] == ')' && Avoids(t[a..e], UrlStops)
              && (a == 0 || (a == 1 && t[0] in Quotes))
              && (n == e + 1 || (n == e + 2 && t[e] in Quotes))
  {
    var a := if 0 < |t| && t[0] in Quotes then 1 else 0;
    var e := RunEnd(t, a, UrlStops);
    if e == a || e == |t| then None
    else if t[e] == ')' then Some((a, e, e + 1))
    else if t[e] in Quotes && e + 1 < |t| && t[e + 1] == ')' then Some((a, e, e + 2))
    else None
  }

  /** A match of `UrlCallAt` is `url(` in any letter case, an optional quote, the address, an optional
      quote and `)`. */
  lemma UrlCallShape(s: string, i: nat)
    requires UrlCallAt(s, i).Some?
    ensures var h := UrlCallAt(s, i).value;
            exists q1, q2 :: OptQuote(q1) && OptQuote(q2) && s[i + 4..h.end] == q1 + h.groups + q2 + ")"
  {
    var t := s[i + 4..];
    var (a, e, n) := UrlArgs(t).value;
    var q1, q2 := t[..a], t[e..n - 1];
    assert OptQuote(q1) by {
      if a == 1 { assert q1 == [t[0]]; } else { assert q1 == ""; }
    }
    assert OptQuote(q2) by {
      if n == e + 2 { assert q2 == [t[e]]; } else { assert q2 == ""; }
    }
    assert t[..n] == q1 + t[a..e] + q2 + ")";
    assert s[i + 4..i + 4 + n] == t[..n];
  }

  /** Every `url(` token, in any letter case, with either quote or none on each side of an address
      that has no quote and no `)`, is matched as a whole, with the address as capture 1. */
  lemma UrlCallMatches(s: string, i: nat, q1: string, v: string, q2: string)
    requires HasAtCi(s, i, "url(")
    requires OptQuote(q1) && OptQuote(q2) && |v| > 0 && Avoids(v, UrlStops)
    requires i + 4 + |q1 + v + q2 + ")"| <= |s|
    requires s[i + 4..i + 4 + |q1 + v + q2 + ")"|] == q1 + v + q2 + ")"
    ensures UrlCallAt(s, i) == Some(Hit(i + 4 + |q1 + v + q2 + ")"|, v))
  {
    var t := s[i + 4..];
    PrefixOfSuffix(s, i + 4, |q1 + v + q2 + ")"|);
    UrlArgsOf(t, q1, v, q2);
  }

  lemma PrefixOfSuffix(s: string, i: nat, n: nat)
    requires i + n <= |s|
    ensures s[i..][..n] == s[i..i + n]
  {
  }

  /** The arguments `q1 + v + q2 + ")"` at the start of `t` are recognised, with `v` as the address. */
  lemma UrlArgsOf(t: string, q1: string, v: string, q2: string)
    requires OptQuote(q1) && OptQuote(q2) && |v| > 0 && Avoids(v, UrlStops)
    requires |q1 + v + q2 + ")"| <= |t| && t[..|q1 + v + q2 + ")"|] == q1 + v + q2 + ")"
    ensures UrlArgs(t) == Some((|q1|, |q1| + |v|, |q1 + v + q2 + ")"|)) && t[|q1|..|q1| + |v|] == v
  {
    var u := q1 + v + q2 + ")";
    var a := |q1|;
    var e := a + |v|;
    assert forall k :: 0 <= k < |u| ==> t[k] == u[k];
    assert a == 1 <==> t[0] in Quotes;
    forall k | a <= k < e ensures t[k] == v[k - a] {
      assert u[k] == v[k - a];
    }
    assert t[a..e] == v;
    assert t[e] == u[e];
    RunEndOfRun(t, a, e, UrlStops);
  }

  // ---------------------------------------------------------------- scheme and host

  /** The length of the text `^(?:https?:)?\/\/[^\/]+` matches at the start of `u`, or 0 when it does
      not match (no flags, so the scheme is lower case). When `https:` is not followed by `//` and a
      host, neither `http:` nor a bare `//` can match instead, since the text starts with `h`. */
  function OriginLength(u: string): (n: nat)
    ensures n <= |u|
    ensures n > 0 ==> n == |u| || u[n] == '/'
  {
    var h := SchemeEnd(u);
    if h == 0 then 0
    else
      var e := RunEnd(u, h, {'/'});
      if e == h then 0 else e
  }

  /** Where `(?:https?:)?\/\/` ends at the start of `u`, or 0 when it does not match there. */
  function SchemeEnd(u: string): nat {
    if "https://" <= u then 8 else if "http://" <= u then 7 else if "//" <= u then 2 else 0
  }

  lemma SchemeEndOf(scheme: string, w: string)
    requires scheme == "" || scheme == "http:" || scheme == "https:"
    ensures SchemeEnd(scheme + "//" + w) == |scheme| + 2
  {
    var u := scheme + "//" + w;
    if scheme == "https:" {
      assert "https://" <= u;
    } else if scheme == "http:" {
      assert "http://" <= u && u[4] == ':';
    } else {
      assert "//" <= u && u[0] == '/';
    }
  }

  /** `u.replace(/^(?:https?:)?\/\/[^\/]+/, '')`: the address without its scheme and host. The result is
      what follows the removed text; when something was removed, it was a host of at least one
      character, and what is left is empty or starts with `/`. */
  function StripOrigin(u: string): (r: string)
    ensures |r| <= |u| && r == u[|u| - |r|..]
    ensures r != u ==> |r| < |u| && (r == "" || r[0] == '/')
  {
    u[OriginLength(u)..]
  }

  /** A scheme-relative or `http(s)` address loses exactly its scheme and host. */
  lemma StripOriginOf(scheme: string, host: string, rest: string)
    requires scheme == "" || scheme == "http:" || scheme == "https:"
    requires |host| > 0 && '/' !in host
    requires rest == "" || rest[0] == '/'
    ensures StripOrigin(scheme + "//" + host + rest) == rest
  {
    var u := scheme + "//" + host + rest;
    var h := |scheme| + 2;
    assert u == scheme + "//" + (host + rest);
    SchemeEndOf(scheme, host + rest);
    forall k | h <= k < h + |host| ensures u[k] !in {'/'} {
      assert u[k] == host[k - h];
    }
    RunEndOfRun(u, h, h + |host|, {'/'});
    assert u[h + |host|..] == rest;
  }

  /** The greedy run from `a` ends at `e` when every character before `e` may be taken and the one at
      `e` may not (or the text ends there). */
  lemma {:induction false} RunEndOfRun(s: string, a: nat, e: nat, stops: set<char>)
    requires a <= e <= |s|
    requires forall k :: a <= k < e ==> s[k] !in stops
    requires e == |s| || s[e] in stops
    ensures RunEnd(s, a, stops) == e
    decreases e - a
  {
    if a < e {
      RunEndOfRun(s, a + 1, e, stops);
    }
  }
}
