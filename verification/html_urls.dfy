/** The last three passes of `rewriteHtmlPaths` (netlify/edge-functions/proxy-handler.ts): `url(...)`
    tokens naming images and fonts, `srcset` lists and the `<base>` tag. Each is one global,
    case-insensitive replacement. */
module HtmlUrls {

  import opened Wrappers
  import opened Strings
  import opened Scan
  import opened Patterns
  import opened Template

  // ---------------------------------------------------------------- url(...) of images and fonts

  /** The extensions the image pass recognises. */
  const ImageExtensions: set<string> :=
    {"png", "jpg", "jpeg", "gif", "svg", "webp", "ico", "woff", "woff2", "ttf", "eot"}

  /** `\.(?:png|jpg|...|eot)` matches at the end of `url`, in any letter case. */
  predicate ImageName(url: string) {
    exists n | 0 <= n < |url| :: url[n] == '.' && Lower(url[n + 1..]) in ImageExtensions
  }

  /** `url\(['"]?(?:(?:https?:)?\/\/)?[^'")]*\.(?:png|...|eot)['"]?\)` with the `i` flag, tried at
      `i`, with the address the callback extracts from the match as its group. The optional scheme
      and `//` take only characters the class `[^'")]` takes too, so the expression matches exactly
      where a `url(...)` token matches and the token's address, its longest run outside `'")`,
      ends in a dot and a listed extension. */
  function ImageAt(s: string, i: nat): Option<Hit<string>> {
    match UrlCallAt(s, i)
    case None => None
    case Some(h) => if ImageName(h.groups) then Some(h) else None
  }

  /** The callback of the image pass for a matched token `token` with address `url`: an address that
      starts with `//` or names the target host (case-sensitively, anywhere in it) keeps only its path
      and is put under the proxy base, a root-relative address is put under the proxy base, and any
      other token is kept. */
  function ImageReplacement(token: string, url: string, domain: string, proxyBase: string): string {
    if "//" <= url || Contains(url, domain) then "url(\"" + proxyBase + StripOrigin(url) + "\")"
    else if "/" <= url then "url(\"" + proxyBase + url + "\")"
    else token
  }

  /** The image pass. A document with no `)` has no `url(...)` token and is left as it is. */
  function ImagePass(content: string, domain: string, proxyBase: string): (r: string)
    ensures ')' !in content ==> r == content
  {
    ImageNeedsParen(content);
    ReplaceAll(content, ImageAt, (m, u) => ImageReplacement(m, u, domain, proxyBase))
  }

  /** An address made of a stem, a dot and a listed extension in any letter case names an image. */
  lemma ImageNameOf(stem: string, ext: string)
    requires Lower(ext) in ImageExtensions
    ensures ImageName(stem + "." + ext)
  {
    var u := stem + "." + ext;
    assert u[|stem|] == '.';
    assert u[|stem| + 1..] == ext;
  }

  /** An address without a dot names no image. */
  lemma NoDotNoImage(url: string)
    requires '.' !in url
    ensures !ImageName(url)
  {
  }

  /** The text `token` is `url(` in any letter case followed by an optional quote `q1`, the address
      `v`, an optional quote `q2` and `)`. */
  predicate UrlTokenText(token: string, q1: string, v: string, q2: string) {
    && HasAtCi(token, 0, "url(")
    && token[4..] == q1 + v + q2 + ")"
    && OptQuote(q1) && OptQuote(q2) && |v| > 0 && Avoids(v, UrlStops)
  }

  lemma UrlTokenTextOfParts(kw: string, q1: string, v: string, q2: string)
    requires Lower(kw) == "url("
    requires OptQuote(q1) && OptQuote(q2) && |v| > 0 && Avoids(v, UrlStops)
    ensures UrlTokenText(kw + q1 + v + q2 + ")", q1, v, q2)
  {
    var token := kw + q1 + v + q2 + ")";
    assert token[..4] == kw;
    assert token[4..] == q1 + v + q2 + ")";
    HasAtCiLower(token, 0, "url(");
  }

  /** A whole `url(...)` token is one match of the `url(...)` expression, with its address. */
  lemma UrlToken(token: string, q1: string, v: string, q2: string)
    requires UrlTokenText(token, q1, v, q2)
    ensures UrlCallAt(token, 0) == Some(Hit(|token|, v))
  {
    assert token[4..4 + |q1 + v + q2 + ")"|] == token[4..];
    UrlCallMatches(token, 0, q1, v, q2);
  }

  /** One `url(...)` token, in any letter case and with any quotes, whose address names an image is
      rewritten by the three cases of the callback. */
  lemma ImageToken(token: string, q1: string, v: string, q2: string, domain: string, proxyBase: string)
    requires UrlTokenText(token, q1, v, q2) && ImageName(v)
    ensures var r := ImagePass(token, domain, proxyBase);
            && ("//" <= v || Contains(v, domain) ==> r == "url(\"" + proxyBase + StripOrigin(v) + "\")")
            && (!("//" <= v || Contains(v, domain)) && "/" <= v ==> r == "url(\"" + proxyBase + v + "\")")
            && (!("/" <= v || Contains(v, domain)) ==> r == token)
  {
    UrlToken(token, q1, v, q2);
    WholeMatch(ImageAt, token, (m, u) => ImageReplacement(m, u, domain, proxyBase));
  }

  /** A `url(...)` token whose address names no image, and has no `(` that could start another token,
      is left as it is. */
  lemma OtherTokenKept(token: string, q1: string, v: string, q2: string, domain: string, proxyBase: string)
    requires UrlTokenText(token, q1, v, q2) && '(' !in v && !ImageName(v)
    ensures ImagePass(token, domain, proxyBase) == token
  {
    UrlToken(token, q1, v, q2);
    OnlyParenAtThree(token, q1, v, q2);
    NoHitUnchanged(ImageAt, token, 0, (m, u) => ImageReplacement(m, u, domain, proxyBase));
  }

  /** In such a token the only `(` is the one of `url(`. */
  lemma OnlyParenAtThree(token: string, q1: string, v: string, q2: string)
    requires UrlTokenText(token, q1, v, q2) && '(' !in v
    ensures forall p :: 0 <= p < |token| && token[p] == '(' ==> p == 3
  {
    var rest := token[4..];
    forall p | 0 <= p < |token| && p != 3 ensures token[p] != '(' {
      if p < 4 {
        assert LowerChar(token[p]) == "url("[p];
      } else {
        assert token[p] == rest[p - 4];
        assert rest[p - 4] != '(' by {
          if p - 4 >= |q1| && p - 4 < |q1| + |v| {
            assert rest[p - 4] == v[p - 4 - |q1|];
          }
        }
      }
    }
  }

  /** Every `url(...)` token ends with `)`. */
  lemma ImageNeedsParen(content: string)
    ensures ')' !in content ==> forall k :: 0 <= k < |content| ==> !HitAt(ImageAt, content, k)
  {
    assert forall k :: 0 <= k < |content| && HitAt(ImageAt, content, k) ==>
      content[UrlCallAt(content, k).value.end - 1] == ')';
  }

  // ---------------------------------------------------------------- srcset

  /** `srcset=["']([^"']+)["']` with the `i` flag, tried at `i`: the end of the match and the list. */
  function SrcsetAt(s: string, i: nat): (r: Option<Hit<string>>)
    ensures r.Some? ==> i + 8 < r.value.end <= |s| && s[i + 6] == '=' && s[r.value.end - 1] in Quotes
  {
    if !HasAtCi(s, i, "srcset=") || i + 7 >= |s| || s[i + 7] !in Quotes then None
    else
      assert LowerChar(s[i + 6]) == "srcset="[6];
      var t := s[i + 8..];
      match ListEnd(t)
      case None => None
      case Some(e) =>
        assert s[i + 8 + e] == t[e];
        Some(Hit(i + 8 + e + 1, t[..e]))
  }

  /** `([^"']+)["']` at the start of `t`: the index of the closing quote, either quote. */
  function ListEnd(t: string): (e: Option<nat>)
    ensures e.Some? ==> 0 < e.value < |t| && t[e.value] in Quotes
  {
    var e := RunEnd(t, 0, Quotes);
    if e == 0 || e == |t| then None else Some(e)
  }

  /** A text with no whitespace: one of the pieces `split(/\s+/)` gives. */
  predicate IsWord(w: string) {
    |w| > 0 && forall k :: 0 <= k < |w| ==> !IsSpace(w[k])
  }

  predicate AllWords(ws: seq<string>) {
    forall k :: 0 <= k < |ws| ==> IsWord(ws[k])
  }

  predicate AllSpace(s: string) {
    forall k :: 0 <= k < |s| ==> IsSpace(s[k])
  }

  /** The callback's treatment of one comma-separated candidate: split at whitespace after trimming,
      a root-relative address (starting with `/` but not `//`) is put under the proxy base and followed
      by its descriptors, each separated by one space; any other candidate is kept as written,
      surrounding whitespace included. */
  function SrcsetCandidate(item: string, proxyBase: string): string {
    Rebuilt(Words(Trim(item)), item, proxyBase)
  }

  /** The candidate `item` whose words are `words`, after the callback. */
  function Rebuilt(words: seq<string>, item: string, proxyBase: string): string
    requires |words| >= 1
  {
    var src := words[0];
    if "/" <= src && !("//" <= src) then proxyBase + src + Descriptors(words[1..]) else item
  }

  /** `desc.length ? ' ' + desc.join(' ') : ''`. */
  function Descriptors(desc: seq<string>): string {
    if |desc| > 0 then " " + Join(desc, " ") else ""
  }

  function Candidates(items: seq<string>, proxyBase: string): (r: seq<string>)
    ensures |r| == |items|
    ensures forall k :: 0 <= k < |items| ==> r[k] == SrcsetCandidate(items[k], proxyBase)
  {
    seq(|items|, k requires 0 <= k < |items| => SrcsetCandidate(items[k], proxyBase))
  }

  /** The new list: the candidates split at commas, treated one by one and joined with `, `. */
  function SrcsetList(list: string, proxyBase: string): string {
    Join(Candidates(Split(list, ','), proxyBase), ", ")
  }

  function SrcsetReplacement(proxyBase: string): (string, string) -> string {
    (m: string, list: string) => "srcset=\"" + SrcsetList(list, proxyBase) + "\""
  }

  /** The srcset pass. A document with no `=` has no `srcset` attribute and is left as it is. */
  function SrcsetPass(content: string, proxyBase: string): (r: string)
    ensures '=' !in content ==> r == content
  {
    SrcsetNeedsEquals(content);
    ReplaceAll(content, SrcsetAt, SrcsetReplacement(proxyBase))
  }

  lemma SrcsetNeedsEquals(content: string)
    ensures '=' !in content ==> forall k :: 0 <= k < |content| ==> !HitAt(SrcsetAt, content, k)
  {
  }

  /** A candidate written as words separated by single spaces, with any whitespace around it, is put
      under the proxy base without that whitespace when its address is root-relative, and is kept as
      written otherwise. */
  lemma CandidateOf(sp1: string, ws: seq<string>, sp2: string, proxyBase: string)
    requires AllSpace(sp1) && AllSpace(sp2) && |ws| >= 1 && AllWords(ws)
    ensures var item := sp1 + Join(ws, " ") + sp2;
            && ("/" <= ws[0] && !("//" <= ws[0]) ==> SrcsetCandidate(item, proxyBase) == proxyBase + Join(ws, " "))
            && (!("/" <= ws[0]) || "//" <= ws[0] ==> SrcsetCandidate(item, proxyBase) == item)
  {
    JoinWordsEnds(ws);
    TrimPadded(sp1, Join(ws, " "), sp2);
    WordsJoin(ws);
    CandidateOfWords(sp1 + Join(ws, " ") + sp2, ws, proxyBase);
  }

  /** A candidate whose trimmed text splits into the words `ws`. */
  lemma CandidateOfWords(item: string, ws: seq<string>, proxyBase: string)
    requires |ws| >= 1 && Words(Trim(item)) == ws
    ensures "/" <= ws[0] && !("//" <= ws[0]) ==> SrcsetCandidate(item, proxyBase) == proxyBase + Join(ws, " ")
    ensures !("/" <= ws[0]) || "//" <= ws[0] ==> SrcsetCandidate(item, proxyBase) == item
  {
    CandidateIsRebuilt(item, ws, proxyBase);
    if "/" <= ws[0] && !("//" <= ws[0]) {
      RebuiltRoot(ws, item, proxyBase);
    }
  }

  lemma CandidateIsRebuilt(item: string, ws: seq<string>, proxyBase: string)
    requires |ws| >= 1 && Words(Trim(item)) == ws
    ensures SrcsetCandidate(item, proxyBase) == Rebuilt(ws, item, proxyBase)
  {
  }

  /** A root-relative first word puts the whole candidate, with single spaces, under the proxy
      base. */
  lemma RebuiltRoot(ws: seq<string>, item: string, proxyBase: string)
    requires |ws| >= 1 && "/" <= ws[0] && !("//" <= ws[0])
    ensures Rebuilt(ws, item, proxyBase) == proxyBase + Join(ws, " ")
  {
    var d := Descriptors(ws[1..]);
    JoinHead(ws);
    assert proxyBase + ws[0] + d == proxyBase + (ws[0] + d);
  }

  /** Words joined with spaces: the first word and then the descriptors. */
  lemma JoinHead(ws: seq<string>)
    requires |ws| >= 1
    ensures Join(ws, " ") == ws[0] + Descriptors(ws[1..])
  {
    if |ws| == 1 {
      assert Join(ws, " ") == ws[0];
    }
  }

  /** The first and last characters of words joined with spaces are not whitespace. */
  lemma {:induction false} JoinWordsEnds(ws: seq<string>)
    requires |ws| >= 1 && AllWords(ws)
    ensures var x := Join(ws, " "); |x| > 0 && !IsSpace(x[0]) && !IsSpace(x[|x| - 1])
    decreases |ws|
  {
    if |ws| > 1 {
      JoinWordsEnds(ws[1..]);
      var x := Join(ws, " ");
      var y := Join(ws[1..], " ");
      assert x == ws[0] + " " + y;
      assert x[0] == ws[0][0];
      assert x[|x| - 1] == y[|y| - 1];
    }
  }

  /** Trimming removes exactly the whitespace around a text that starts and ends with other
      characters. */
  lemma TrimPadded(sp1: string, x: string, sp2: string)
    requires AllSpace(sp1) && AllSpace(sp2) && |x| > 0 && !IsSpace(x[0]) && !IsSpace(x[|x| - 1])
    ensures Trim(sp1 + x + sp2) == x
  {
    assert sp1 + x + sp2 == sp1 + (x + sp2);
    TrimStartSpaces(sp1, x + sp2);
    TrimEndSpaces(x, sp2);
  }

  lemma {:induction false} TrimStartSpaces(sp: string, y: string)
    requires AllSpace(sp) && |y| > 0 && !IsSpace(y[0])
    ensures TrimStart(sp + y) == y
    decreases |sp|
  {
    if |sp| > 0 {
      assert (sp + y)[1..] == sp[1..] + y;
      TrimStartSpaces(sp[1..], y);
    } else {
      assert sp + y == y;
    }
  }

  lemma {:induction false} TrimEndSpaces(x: string, sp: string)
    requires AllSpace(sp) && |x| > 0 && !IsSpace(x[|x| - 1])
    ensures TrimEnd(x + sp) == x
    decreases |sp|
  {
    if |sp| > 0 {
      assert (x + sp)[..|x + sp| - 1] == x + sp[..|sp| - 1];
      TrimEndSpaces(x, sp[..|sp| - 1]);
    } else {
      assert x + sp == x;
    }
  }

  /** Splitting words joined with single spaces at whitespace gives the words back. */
  lemma {:induction false} WordsJoin(ws: seq<string>)
    requires |ws| >= 1 && AllWords(ws)
    ensures Words(Join(ws, " ")) == ws
    decreases |ws|
  {
    if |ws| > 1 {
      var y := Join(ws[1..], " ");
      JoinStep(ws);
      JoinWordsEnds(ws[1..]);
      WordsStep(Join(ws, " "), ws[0], y);
      WordsJoin(ws[1..]);
      assert [ws[0]] + ws[1..] == ws;
    } else {
      WordEndOfWord(ws[0], ws[0]);
    }
  }

  /** Words joined with spaces, as slices: the first word, a space, and the rest joined. */
  lemma JoinStep(ws: seq<string>)
    requires |ws| > 1
    ensures var x, y := Join(ws, " "), Join(ws[1..], " ");
            && |x| == |ws[0]| + 1 + |y| && x[..|ws[0]|] == ws[0] && x[|ws[0]|] == ' ' && x[|ws[0]| + 1..] == y
  {
  }

  /** A word, a space and a text starting with a non-space split into that word and the text's
      words. */
  lemma WordsStep(x: string, w: string, y: string)
    requires IsWord(w) && |y| > 0 && !IsSpace(y[0])
    requires |x| == |w| + 1 + |y| && x[..|w|] == w && x[|w|] == ' ' && x[|w| + 1..] == y
    ensures Words(x) == [w] + Words(y)
  {
    WordEndOfWord(x, w);
    assert x[|w|..] == " " + y;
    TrimStartSpaces(" ", y);
  }

  /** A word at the start of a text that continues with a space, or ends, is the first run of
      non-whitespace. */
  lemma WordEndOfWord(x: string, w: string)
    requires IsWord(w) && |w| <= |x| && x[..|w|] == w && (|x| == |w| || x[|w|] == ' ')
    ensures WordEnd(x, 0) == |w|
  {
    assert forall k :: 0 <= k < |w| ==> x[k] == x[..|w|][k];
    WordEndOfRun(x, 0, |w|);
  }

  lemma {:induction false} WordEndOfRun(s: string, a: nat, e: nat)
    requires a <= e <= |s|
    requires forall k :: a <= k < e ==> !IsSpace(s[k])
    requires e == |s| || IsSpace(s[e])
    ensures WordEnd(s, a) == e
    decreases e - a
  {
    if a < e {
      WordEndOfRun(s, a + 1, e);
    }
  }

  /** Joining comma-free pieces with commas and splitting at commas gives the pieces back. */
  lemma {:induction false} SplitJoin(items: seq<string>, c: char)
    requires |items| >= 1 && forall k :: 0 <= k < |items| ==> c !in items[k]
    ensures Split(Join(items, [c]), c) == items
    decreases |items|
  {
    if |items| == 1 {
      assert Join(items, [c]) == items[0];
    } else {
      var w := items[0];
      var y := Join(items[1..], [c]);
      var x := Join(items, [c]);
      assert x == w + [c] + y;
      assert x[|w|] == c && x[..|w|] == w && x[|w| + 1..] == y;
      var k := FirstIndexOfChar(x, c);
      assert c !in x[..|w|];
      assert k == |w|;
      SplitJoin(items[1..], c);
      assert [w] + items[1..] == items;
    }
  }

  /** A list written as comma-free candidates joined with commas becomes the treated candidates
      joined with `, `. */
  lemma SrcsetListOf(items: seq<string>, proxyBase: string)
    requires |items| >= 1 && forall k :: 0 <= k < |items| ==> ',' !in items[k]
    ensures SrcsetList(Join(items, ","), proxyBase) == Join(Candidates(items, proxyBase), ", ")
  {
    SplitJoin(items, ',');
  }

  /** The text `s` is one `srcset` attribute, the name in any letter case, with the non-empty list
      `list` between quotes. */
  predicate SrcsetText(s: string, list: string) {
    && |s| == |list| + 9
    && HasAtCi(s, 0, "srcset=")
    && s[7] in Quotes
    && s[8..|s| - 1] == list
    && s[|s| - 1] in Quotes
  }

  lemma SrcsetTextOfParts(kw: string, q1: char, list: string, q2: char)
    requires Lower(kw) == "srcset=" && q1 in Quotes && q2 in Quotes
    ensures SrcsetText(kw + [q1] + list + [q2], list)
  {
    var s := kw + [q1] + list + [q2];
    assert s[..7] == kw;
    HasAtCiLower(s, 0, "srcset=");
    assert s[8..|s| - 1] == list;
  }

  /** A `srcset` attribute with a non-empty list without quotes is replaced by the treated list, in
      double quotes, with the name in lower case. */
  lemma SrcsetRewrite(s: string, list: string, proxyBase: string)
    requires SrcsetText(s, list) && |list| > 0 && Avoids(list, Quotes)
    ensures SrcsetPass(s, proxyBase) == "srcset=\"" + SrcsetList(list, proxyBase) + "\""
  {
    var t := s[8..];
    assert t[..|list|] == list;
    RunEndOfRun(t, 0, |list|, Quotes);
    assert SrcsetAt(s, 0) == Some(Hit(|s|, list));
    WholeMatch(SrcsetAt, s, SrcsetReplacement(proxyBase));
  }

  // ---------------------------------------------------------------- <base>

  /** `<base[^>]*href=["'][^"']*["'][^>]*>` with the `i` flag, tried at `i`: where the match ends, and
      the text around it, which the replacement template could refer to. */
  function BaseAt(s: string, i: nat): (r: Option<Hit<Captures>>)
    ensures r.Some? ==> i < r.value.end <= |s| && s[r.value.end - 1] == '>'
  {
    if !HasAtCi(s, i, "<base") then None
    else
      var g := RunEnd(s, i + 5, {'>'});
      match HrefFrom(s, i + 5, g)
      case None => None
      case Some(n) => Some(Hit(n, Captures([], s[..i], s[n..])))
  }

  /** The rest of the expression tried with `href` at `j`, then at each earlier index down to `lo`:
      the greedy `[^>]*` before `href` gives characters back one at a time, so the first index that
      succeeds, counting down, decides the match. */
  function HrefFrom(s: string, lo: nat, j: nat): (r: Option<nat>)
    requires lo <= j <= |s|
    ensures r.Some? ==> lo < r.value <= |s| && s[r.value - 1] == '>'
    decreases j - lo
  {
    match HrefAt(s, j)
    case Some(n) => Some(n)
    case None => if j == lo then None else HrefFrom(s, lo, j - 1)
  }

  /** `href=["'][^"']*["'][^>]*>` at `j`: the value runs to the first quote after the opening one, and
      the match ends at the first `>` after that. */
  function HrefAt(s: string, j: nat): (r: Option<nat>)
    ensures r.Some? ==> j < r.value <= |s| && s[r.value - 1] == '>'
  {
    if !HasAtCi(s, j, "href=") || j + 5 >= |s| || s[j + 5] !in Quotes then None
    else
      var c := RunEnd(s, j + 6, Quotes);
      if c == |s| then None
      else
        var g := RunEnd(s, c + 1, {'>'});
        if g == |s| then None else Some(g + 1)
  }

  /** `<base href="${proxyBaseUrl}/">`. */
  function BaseTemplate(proxyBase: string): string {
    "<base href=\"" + proxyBase + "/\">"
  }

  function BaseReplacement(proxyBase: string): (string, Captures) -> string {
    (m: string, c: Captures) => Expand(BaseTemplate(proxyBase), m, c)
  }

  /** The `<base>` pass. A document with no `=` has no `<base>` tag with `href` and is left as it is. */
  function BasePass(content: string, proxyBase: string): (r: string)
    ensures '=' !in content ==> r == content
  {
    BaseNeedsEquals(content);
    ReplaceAll(content, BaseAt, BaseReplacement(proxyBase))
  }

  /** Indices past `j0` where `href` does not fit are skipped. */
  lemma {:induction false} HrefFromSkip(s: string, lo: nat, j0: nat, j: nat)
    requires lo <= j0 <= j <= |s|
    requires forall x :: j0 < x <= j ==> HrefAt(s, x).None?
    ensures HrefFrom(s, lo, j) == HrefFrom(s, lo, j0)
    decreases j - j0
  {
    if j0 < j {
      HrefFromStep(s, lo, j);
      HrefFromSkip(s, lo, j0, j - 1);
    }
  }

  /** An index where `href` does not fit passes the search on to the index before it. */
  lemma HrefFromStep(s: string, lo: nat, j: nat)
    requires lo < j <= |s| && HrefAt(s, j).None?
    ensures HrefFrom(s, lo, j) == HrefFrom(s, lo, j - 1)
  {
  }

  /** The text `s` is a `<base href=...>` tag, both words in any letter case, whose value `v` has
      no quote. */
  predicate BaseText(s: string, v: string) {
    && |s| == |v| + 14
    && HasAtCi(s, 0, "<base")
    && s[5] == ' '
    && HasAtCi(s, 6, "href=")
    && s[11] in Quotes
    && s[12..|s| - 2] == v
    && s[|s| - 2] in Quotes
    && s[|s| - 1] == '>'
    && Avoids(v, Quotes)
  }

  lemma BaseTextOfParts(kw: string, hw: string, q1: char, v: string, q2: char)
    requires Lower(kw) == "<base" && Lower(hw) == "href=" && q1 in Quotes && q2 in Quotes
    requires Avoids(v, Quotes)
    ensures BaseText(kw + " " + hw + [q1] + v + [q2] + ">", v)
  {
    var s := kw + " " + hw + [q1] + v + [q2] + ">";
    assert s[..5] == kw;
    assert s[6..11] == hw;
    HasAtCiLower(s, 0, "<base");
    HasAtCiLower(s, 6, "href=");
    assert s[12..|s| - 2] == v;
  }

  /** In a `<base href=...>` tag, `href` fits only at its own place. */
  lemma BaseHrefAt(s: string, v: string)
    requires BaseText(s, v)
    ensures HrefAt(s, 6) == Some(|s|)
    ensures forall x :: 6 < x <= |s| ==> HrefAt(s, x).None?
  {
    forall k | 12 <= k < |s| - 2 ensures s[k] !in Quotes {
      assert s[k] == s[12..|s| - 2][k - 12];
    }
    RunEndOfRun(s, 12, |s| - 2, Quotes);
    RunEndOfRun(s, |s| - 1, |s| - 1, {'>'});
    forall x | 6 < x <= |s| ensures HrefAt(s, x).None? {
      if x + 5 < |s| && s[x + 5] in Quotes {
        assert x + 5 == |s| - 2;
        RunEndOfRun(s, |s| - 1, |s|, Quotes);
      }
    }
  }

  /** A `<base href=...>` tag is replaced by a `<base>` tag pointing at the proxy base. */
  lemma BaseRewrite(s: string, v: string, proxyBase: string)
    requires BaseText(s, v) && '$' !in proxyBase
    ensures BasePass(s, proxyBase) == "<base href=\"" + proxyBase + "/\">"
  {
    BaseHrefAt(s, v);
    var g := RunEnd(s, 5, {'>'});
    assert 6 <= g by {
      assert s[5] != '>';
    }
    HrefFromSkip(s, 5, 6, g);
    assert BaseAt(s, 0).Some? && BaseAt(s, 0).value.end == |s|;
    WholeMatch(BaseAt, s, BaseReplacement(proxyBase));
    LiteralOnly(BaseTemplate(proxyBase), s, BaseAt(s, 0).value.groups);
  }

  /** A `<base>` tag is matched only where its `href=` is, so without `=` nothing matches. */
  lemma BaseNeedsEquals(content: string)
    ensures '=' !in content ==> forall k :: 0 <= k < |content| ==> !HitAt(BaseAt, content, k)
  {
    if '=' !in content {
      forall k | 0 <= k < |content| ensures !HitAt(BaseAt, content, k) {
        if HitAt(BaseAt, content, k) {
          var g := RunEnd(content, k + 5, {'>'});
          HrefFromHasEquals(content, k + 5, g);
        }
      }
    }
  }

  /** A match of `href=` needs an `=` in the text. */
  lemma {:induction false} HrefFromHasEquals(s: string, lo: nat, j: nat)
    requires lo <= j <= |s| && HrefFrom(s, lo, j).Some?
    ensures '=' in s
    decreases j - lo
  {
    match HrefAt(s, j)
    case Some(_) =>
      assert LowerChar(s[j + 4]) == "href="[4];
      assert s[j + 4] in s;
    case None =>
      HrefFromHasEquals(s, lo, j - 1);
  }
}
