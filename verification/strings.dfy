/** String helpers with the meaning of the JavaScript `String` methods the proxy uses.
    Strings are sequences of Unicode scalar values; all the literals involved are ASCII. */
module Strings {

  import opened Wrappers

  // ---------------------------------------------------------------- occurrences

  /** `t` occurs in `s` at index `i`. */
  predicate OccursAt(s: string, t: string, i: nat) {
    i + |t| <= |s| && s[i..i + |t|] == t
  }

  /** `s.includes(t)`. */
  predicate Contains(s: string, t: string) {
    exists i: nat | i <= |s| :: OccursAt(s, t, i)
  }

  /** `s.lastIndexOf(t)`, with `None` for -1. */
  function LastIndexOf(s: string, t: string): (r: Option<nat>)
    ensures r.Some? ==> OccursAt(s, t, r.value)
    ensures r.Some? ==> forall k: nat :: r.value < k <= |s| ==> !OccursAt(s, t, k)
    ensures r.None? ==> forall k: nat :: k <= |s| ==> !OccursAt(s, t, k)
  {
    LastIndexBelow(s, t, |s| + 1)
  }

  /** The largest occurrence index of `t` in `s` that is below `n`. */
  function LastIndexBelow(s: string, t: string, n: nat): (r: Option<nat>)
    requires n <= |s| + 1
    ensures r.Some? ==> r.value < n && OccursAt(s, t, r.value)
    ensures r.Some? ==> forall k: nat :: r.value < k < n ==> !OccursAt(s, t, k)
    ensures r.None? ==> forall k: nat :: k < n ==> !OccursAt(s, t, k)
    decreases n
  {
    if n == 0 then None
    else if OccursAt(s, t, n - 1) then Some(n - 1)
    else LastIndexBelow(s, t, n - 1)
  }

  /** `s.lastIndexOf(c)` for a single character, with `None` for -1. */
  function LastIndexOfChar(s: string, c: char): (r: Option<nat>)
    ensures r.Some? ==> r.value < |s| && s[r.value] == c && c !in s[r.value + 1..]
    ensures r.Some? ==> forall j :: r.value < j < |s| ==> s[j] != c
    ensures r.None? <==> c !in s
  {
    if |s| == 0 then None
    else if s[|s| - 1] == c then Some(|s| - 1)
    else
      var r := LastIndexOfChar(s[..|s| - 1], c);
      assert s == s[..|s| - 1] + [s[|s| - 1]];
      r
  }

  /** The last occurrence of `c` is the one with no `c` after it. */
  lemma LastIndexOfCharAt(s: string, c: char, k: nat)
    requires k < |s| && s[k] == c
    requires forall j :: k < j < |s| ==> s[j] != c
    ensures LastIndexOfChar(s, c) == Some(k)
  {
    assert s[k] in s;
  }

  /** `t` does not occur in `s` when one of its characters does not. */
  lemma AbsentChar(s: string, t: string, k: nat)
    requires k < |t| && t[k] !in s
    ensures !Contains(s, t)
  {
    assert forall i: nat :: i <= |s| && OccursAt(s, t, i) ==> s[i + k] == t[k] && s[i + k] in s;
  }

  // ---------------------------------------------------------------- runs

  /** The end of the longest run of characters outside `stops` that starts at `i`:
      the index where `[^stops]*` stops when matched greedily from `i`. */
  function RunEnd(s: string, i: nat, stops: set<char>): (e: nat)
    requires i <= |s|
    ensures i <= e <= |s|
    ensures forall k :: i <= k < e ==> s[k] !in stops
    ensures e < |s| ==> s[e] in stops
    decreases |s| - i
  {
    if i == |s| || s[i] in stops then i else RunEnd(s, i + 1, stops)
  }

  // ---------------------------------------------------------------- ASCII case

  /** ASCII lower-casing of one character; every other character is unchanged. */
  function LowerChar(c: char): char {
    if 'A' <= c <= 'Z' then (c as int + 32) as char else c
  }

  function Lower(s: string): (r: string)
    ensures |r| == |s|
    ensures forall k :: 0 <= k < |s| ==> r[k] == LowerChar(s[k])
  {
    seq(|s|, k requires 0 <= k < |s| => LowerChar(s[k]))
  }

  predicate IsAsciiLetter(c: char) {
    'a' <= c <= 'z' || 'A' <= c <= 'Z'
  }

  /** `s` holds, at index `i`, the text `lit` up to ASCII case. `lit` is given in lower case. This is
      how a case-insensitive (`i` flag) regular expression compares an ASCII literal: ECMAScript's
      Canonicalize never maps a non-ASCII character onto an ASCII one. */
  predicate HasAtCi(s: string, i: nat, lit: string) {
    i + |lit| <= |s| && forall k :: 0 <= k < |lit| ==> LowerChar(s[i + k]) == lit[k]
  }

  /** `HasAtCi` compares the lower-cased slice with the literal. */
  lemma HasAtCiLower(s: string, i: nat, lit: string)
    requires i + |lit| <= |s|
    ensures HasAtCi(s, i, lit) <==> Lower(s[i..i + |lit|]) == lit
  {
    var l := Lower(s[i..i + |lit|]);
    assert forall k :: 0 <= k < |lit| ==> l[k] == LowerChar(s[i + k]);
  }

  // ---------------------------------------------------------------- split and join

  /** `s.split(c)` for a one-character separator: the pieces between separators, in order,
      empty pieces included. */
  function Split(s: string, c: char): (r: seq<string>)
    ensures |r| >= 1
    ensures forall k :: 0 <= k < |r| ==> c !in r[k]
    decreases |s|
  {
    if c !in s then [s]
    else
      var k := FirstIndexOfChar(s, c);
      [s[..k]] + Split(s[k + 1..], c)
  }

  /** The first index of `c` in `s`. */
  function FirstIndexOfChar(s: string, c: char): (k: nat)
    requires c in s
    ensures k < |s| && s[k] == c && c !in s[..k]
  {
    if s[0] == c then 0 else 1 + FirstIndexOfChar(s[1..], c)
  }

  /** `parts.join(sep)`. */
  function Join(parts: seq<string>, sep: string): string
  {
    if |parts| == 0 then ""
    else if |parts| == 1 then parts[0]
    else parts[0] + sep + Join(parts[1..], sep)
  }

  /** Splitting on a character and joining back with it gives the original string. */
  lemma {:induction false} JoinSplit(s: string, c: char)
    ensures Join(Split(s, c), [c]) == s
    decreases |s|
  {
    if c in s {
      var k := FirstIndexOfChar(s, c);
      var rest := Split(s[k + 1..], c);
      JoinSplit(s[k + 1..], c);
      var parts := [s[..k]] + rest;
      assert Split(s, c) == parts;
      assert parts[1..] == rest;
      assert Join(parts, [c]) == s[..k] + [c] + s[k + 1..];
      assert s == s[..k] + [c] + s[k + 1..];
    }
  }

  // ---------------------------------------------------------------- whitespace

  /** ECMAScript WhiteSpace and LineTerminator: what `trim` removes and what `\s` matches. */
  predicate IsSpace(c: char) {
    var n := c as int;
    n == 0x09 || n == 0x0A || n == 0x0B || n == 0x0C || n == 0x0D || n == 0x20 || n == 0xA0
    || n == 0x1680 || (0x2000 <= n <= 0x200A) || n == 0x2028 || n == 0x2029 || n == 0x202F
    || n == 0x205F || n == 0x3000 || n == 0xFEFF
  }

  /** `s.trim()`. */
  function Trim(s: string): (r: string)
    ensures |r| == 0 || (!IsSpace(r[0]) && !IsSpace(r[|r| - 1]))
  {
    TrimEnd(TrimStart(s))
  }

  function TrimStart(s: string): (r: string)
    ensures |r| == 0 || !IsSpace(r[0])
    ensures |s| > 0 && IsSpace(s[0]) ==> |r| < |s|
    ensures exists a :: 0 <= a <= |s| && r == s[a..]
    decreases |s|
  {
    if |s| > 0 && IsSpace(s[0]) then
      var r := TrimStart(s[1..]);
      var a :| 0 <= a <= |s[1..]| && r == s[1..][a..];
      assert r == s[1 + a..];
      r
    else
      assert s == s[0..];
      s
  }

  function TrimEnd(s: string): (r: string)
    ensures |r| == 0 || !IsSpace(r[|r| - 1])
    ensures |s| == 0 || !IsSpace(s[0]) ==> |r| == 0 || !IsSpace(r[0])
    ensures exists b :: 0 <= b <= |s| && r == s[..b]
    decreases |s|
  {
    if |s| > 0 && IsSpace(s[|s| - 1]) then
      var r := TrimEnd(s[..|s| - 1]);
      var b :| 0 <= b <= |s[..|s| - 1]| && r == s[..|s| - 1][..b];
      assert r == s[..b];
      r
    else
      assert s == s[..|s|];
      s
  }

  /** `s.split(/\s+/)` for a string `s` with no leading or trailing whitespace: its maximal runs of
      non-whitespace characters. The empty string gives the single empty piece. */
  function Words(s: string): (r: seq<string>)
    ensures |r| >= 1
    ensures |s| > 0 && !IsSpace(s[0]) ==> r[0] == s[..WordEnd(s, 0)]
    decreases |s|
  {
    var e := WordEnd(s, 0);
    if e == |s| then [s]
    else [s[..e]] + Words(TrimStart(s[e..]))
  }

  /** The end of the run of non-whitespace characters starting at `i`. */
  function WordEnd(s: string, i: nat): (e: nat)
    requires i <= |s|
    ensures i <= e <= |s|
    ensures forall k :: i <= k < e ==> !IsSpace(s[k])
    ensures e < |s| ==> IsSpace(s[e])
    decreases |s| - i
  {
    if i == |s| || IsSpace(s[i]) then i else WordEnd(s, i + 1)
  }
}
