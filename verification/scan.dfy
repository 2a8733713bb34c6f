/** `String.prototype.replace` with a global regular expression, modelled as a left-to-right scan.

    At each index the regular expression is tried; if it matches there, the matched span is handed to
    the replacement and the scan resumes after it, otherwise the character is kept and the scan moves
    on by one. The regular expression itself is a `Matcher`: a function that says whether, and how far,
    the expression matches when its match attempt starts at a given index. None of the expressions in
    the proxy can match the empty string, so a match always makes progress. */
module Scan {

  import opened Wrappers

  /** A match that starts at some index: the index where it ends and its capture groups. */
  datatype Hit<G> = Hit(end: nat, groups: G)

  /** One piece of a scanned text: a character at which no match started, or a matched span. */
  datatype Piece<G> = Kept(c: char) | Matched(text: string, groups: G)

  type Matcher<!G> = (string, nat) -> Option<Hit<G>>

  /** The matcher reports a non-empty match inside `s` starting at `i`. */
  predicate HitAt<G>(m: Matcher<G>, s: string, i: nat) {
    i < |s| && m(s, i).Some? && i < m(s, i).value.end <= |s|
  }

  /** The scan of `s[i..]`. */
  function Pieces<G>(m: Matcher<G>, s: string, i: nat): seq<Piece<G>>
    requires i <= |s|
    decreases |s| - i
  {
    if i == |s| then []
    else if HitAt(m, s, i) then
      var h := m(s, i).value;
      [Matched(s[i..h.end], h.groups)] + Pieces(m, s, h.end)
    else [Kept(s[i])] + Pieces(m, s, i + 1)
  }

  /** The text a piece was scanned from. */
  function PieceSource<G>(p: Piece<G>): string {
    match p
    case Kept(c) => [c]
    case Matched(t, _) => t
  }

  /** The text a sequence of pieces was scanned from. */
  function Source<G>(ps: seq<Piece<G>>): string {
    if |ps| == 0 then "" else PieceSource(ps[0]) + Source(ps[1..])
  }

  /** The output for a sequence of pieces: kept characters as they are, matched spans replaced. */
  function Render<G>(ps: seq<Piece<G>>, f: (string, G) -> string): string {
    if |ps| == 0 then ""
    else
      match ps[0]
      case Kept(c) => [c] + Render(ps[1..], f)
      case Matched(t, g) => f(t, g) + Render(ps[1..], f)
  }

  /** `s.replace(/pattern/g, f)`. Where the expression matches nowhere, the text comes back as it is. */
  function ReplaceAll<G>(s: string, m: Matcher<G>, f: (string, G) -> string): (r: string)
    ensures (forall k :: 0 <= k < |s| ==> !HitAt(m, s, k)) ==> r == s
  {
    NoHitFrame(m, s, f);
    Render(Pieces(m, s, 0), f)
  }

  lemma NoHitFrame<G>(m: Matcher<G>, s: string, f: (string, G) -> string)
    ensures (forall k :: 0 <= k < |s| ==> !HitAt(m, s, k)) ==> Render(Pieces(m, s, 0), f) == s
  {
    if forall k :: 0 <= k < |s| ==> !HitAt(m, s, k) {
      NoHitUnchanged(m, s, 0, f);
    }
  }

  // ---------------------------------------------------------------- properties of the scan

  lemma {:induction false} SourceAppend<G>(a: seq<Piece<G>>, b: seq<Piece<G>>)
    ensures Source(a + b) == Source(a) + Source(b)
    decreases |a|
  {
    if |a| > 0 {
      assert (a + b)[1..] == a[1..] + b;
      SourceAppend(a[1..], b);
    } else {
      assert a + b == b;
    }
  }

  lemma {:induction false} RenderAppend<G>(a: seq<Piece<G>>, b: seq<Piece<G>>, f: (string, G) -> string)
    ensures Render(a + b, f) == Render(a, f) + Render(b, f)
    decreases |a|
  {
    if |a| > 0 {
      assert (a + b)[1..] == a[1..] + b;
      RenderAppend(a[1..], b, f);
    } else {
      assert a + b == b;
    }
  }

  /** Where the scan of `s[i..]` continues after its first piece. */
  function Next<G>(m: Matcher<G>, s: string, i: nat): (n: nat)
    requires i < |s|
    ensures i < n <= |s|
  {
    if HitAt(m, s, i) then m(s, i).value.end else i + 1
  }

  /** The scan at `i` is its first piece, which spells `s[i..Next(m, s, i)]`, followed by the scan
      at `Next(m, s, i)`. */
  lemma PiecesStep<G>(m: Matcher<G>, s: string, i: nat)
    requires i < |s|
    ensures var ps := Pieces(m, s, i);
            && |ps| > 0
            && ps[1..] == Pieces(m, s, Next(m, s, i))
            && PieceSource(ps[0]) == s[i..Next(m, s, i)]
  {
    var ps := Pieces(m, s, i);
    var rest := Pieces(m, s, Next(m, s, i));
    if HitAt(m, s, i) {
      var h := m(s, i).value;
      assert ps == [Matched(s[i..h.end], h.groups)] + rest;
    } else {
      assert ps == [Kept(s[i])] + rest;
      assert s[i..i + 1] == [s[i]];
    }
  }

  /** The first piece of the scan at `i` is what the regular expression does at `i`. */
  lemma FirstPiece<G>(m: Matcher<G>, s: string, i: nat)
    requires i < |s|
    ensures var p := Pieces(m, s, i)[0];
            && (p.Kept? ==> p.c == s[i] && !HitAt(m, s, i))
            && (p.Matched? ==>
                  && HitAt(m, s, i)
                  && m(s, i).value == Hit(i + |p.text|, p.groups)
                  && p.text == s[i..i + |p.text|])
  {
  }

  /** The scan loses nothing: its pieces spell out exactly the scanned text. */
  lemma {:induction false} PiecesCover<G>(m: Matcher<G>, s: string, i: nat)
    requires i <= |s|
    ensures Source(Pieces(m, s, i)) == s[i..]
    decreases |s| - i
  {
    if i < |s| {
      var ps := Pieces(m, s, i);
      var next := Next(m, s, i);
      PiecesStep(m, s, i);
      PiecesCover(m, s, next);
      SliceSplit(s, i, next);
    }
  }

  lemma SliceSplit(s: string, i: nat, j: nat)
    requires i <= j <= |s|
    ensures s[i..] == s[i..j] + s[j..]
  {
  }

  /** The index of `s` where the piece `idx` of the scan at `i` starts. */
  function Start<G>(m: Matcher<G>, s: string, i: nat, idx: nat): nat
    requires i <= |s|
    decreases |s| - i
  {
    if idx == 0 || i == |s| then i else Start(m, s, Next(m, s, i), idx - 1)
  }

  /** Each piece is what the regular expression does where the piece starts: a kept character is one
      at which no match starts, a matched span is exactly the match that starts at its position. So the
      replacement is leftmost-first and its matches do not overlap. */
  lemma {:induction false} PiecesAt<G>(m: Matcher<G>, s: string, i: nat, idx: nat)
    requires i <= |s|
    requires idx < |Pieces(m, s, i)|
    ensures var p := Pieces(m, s, i)[idx];
            var at := Start(m, s, i, idx);
            && at < |s|
            && (p.Kept? ==> p.c == s[at] && !HitAt(m, s, at))
            && (p.Matched? ==>
                  && HitAt(m, s, at)
                  && m(s, at).value == Hit(at + |p.text|, p.groups)
                  && p.text == s[at..at + |p.text|])
    decreases |s| - i
  {
    PiecesStep(m, s, i);
    if idx == 0 {
      FirstPiece(m, s, i);
    } else {
      var ps := Pieces(m, s, i);
      assert ps[idx] == ps[1..][idx - 1];
      PiecesAt(m, s, Next(m, s, i), idx - 1);
    }
  }

  /** A piece starts where the text spelled by the pieces before it ends. */
  lemma {:induction false} StartAfterSource<G>(m: Matcher<G>, s: string, i: nat, idx: nat)
    requires i <= |s|
    requires idx <= |Pieces(m, s, i)|
    ensures Start(m, s, i, idx) == i + |Source(Pieces(m, s, i)[..idx])|
    decreases |s| - i
  {
    var ps := Pieces(m, s, i);
    if idx == 0 {
      assert ps[..0] == [];
    } else {
      PiecesStep(m, s, i);
      StartAfterSource(m, s, Next(m, s, i), idx - 1);
      SourceOfFirst(ps, idx);
    }
  }

  /** The text of the first `idx` pieces is the first piece's text followed by that of the next
      `idx - 1`. */
  lemma SourceOfFirst<G>(ps: seq<Piece<G>>, idx: nat)
    requires 0 < idx <= |ps|
    ensures Source(ps[..idx]) == PieceSource(ps[0]) + Source(ps[1..][..idx - 1])
  {
    assert ps[..idx] == [ps[0]] + ps[1..][..idx - 1];
    SourceAppend([ps[0]], ps[1..][..idx - 1]);
    assert Source([ps[0]]) == PieceSource(ps[0]);
  }

  /** Where the regular expression matches nowhere, the replacement changes nothing. */
  lemma {:induction false} NoHitUnchanged<G>(m: Matcher<G>, s: string, i: nat, f: (string, G) -> string)
    requires i <= |s|
    requires forall k :: i <= k < |s| ==> !HitAt(m, s, k)
    ensures Render(Pieces(m, s, i), f) == s[i..]
    decreases |s| - i
  {
    if i < |s| {
      NoHitUnchanged(m, s, i + 1, f);
      assert s[i..] == [s[i]] + s[i + 1..];
    }
  }

  /** A replacement that gives every match back verbatim changes nothing. */
  lemma {:induction false} IdentityUnchanged<G>(ps: seq<Piece<G>>, f: (string, G) -> string)
    requires forall k :: 0 <= k < |ps| && ps[k].Matched? ==> f(ps[k].text, ps[k].groups) == ps[k].text
    ensures Render(ps, f) == Source(ps)
    decreases |ps|
  {
    if |ps| > 0 {
      IdentityUnchanged(ps[1..], f);
    }
  }

  /** Two replacements that agree on every match the expression finds give the same output. */
  lemma {:induction false} ReplacementsAgree<G>(m: Matcher<G>, s: string, i: nat, f: (string, G) -> string,
                                                 g: (string, G) -> string)
    requires i <= |s|
    requires forall k :: i <= k < |s| && HitAt(m, s, k) ==>
               f(s[k..m(s, k).value.end], m(s, k).value.groups) == g(s[k..m(s, k).value.end], m(s, k).value.groups)
    ensures Render(Pieces(m, s, i), f) == Render(Pieces(m, s, i), g)
    decreases |s| - i
  {
    if i < |s| {
      PiecesStep(m, s, i);
      ReplacementsAgree(m, s, Next(m, s, i), f, g);
    }
  }

  /** A text that is one match from start to end is replaced by the replacement of that match. */
  lemma WholeMatch<G>(m: Matcher<G>, s: string, f: (string, G) -> string)
    requires |s| > 0 && m(s, 0).Some? && m(s, 0).value.end == |s|
    ensures ReplaceAll(s, m, f) == f(s, m(s, 0).value.groups)
  {
    var g := m(s, 0).value.groups;
    assert HitAt(m, s, 0);
    assert s[0..|s|] == s;
    assert Pieces(m, s, |s|) == [];
    var ps := [Matched(s, g)];
    assert Pieces(m, s, 0) == ps;
    assert ps[1..] == [];
    assert Render(ps, f) == f(s, g) + Render(ps[1..], f);
  }
}
