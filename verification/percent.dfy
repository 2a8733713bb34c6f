/** Percent-encoding (section 2.1 of RFC 3986) as JavaScript's `decodeURIComponent` and
    `encodeURIComponent` apply it (sections 19.2.6.1 to 19.2.6.5 of ECMAScript 2023): octets are UTF-8,
    and decoding fails with a URIError on a malformed escape or an invalid UTF-8 sequence. */
module Percent {

  import opened Wrappers

  /** The URIError that `decodeURIComponent` throws. */
  datatype UriError = UriError

  // ---------------------------------------------------------------- hexadecimal octets

  function HexValue(c: char): Option<nat> {
    if '0' <= c <= '9' then Some(c as int - '0' as int)
    else if 'A' <= c <= 'F' then Some(c as int - 'A' as int + 10)
    else if 'a' <= c <= 'f' then Some(c as int - 'a' as int + 10)
    else None
  }

  /** The upper-case hexadecimal digit `encodeURIComponent` writes. */
  function HexDigit(v: nat): (c: char)
    requires v < 16
    ensures HexValue(c) == Some(v)
  {
    if v < 10 then ('0' as int + v) as char else ('A' as int + v - 10) as char
  }

  /** The octet written as `%XY` at index `k` of `s`, if there is one. */
  function Triplet(s: string, k: nat): (r: Option<nat>)
    ensures r.Some? ==> r.value < 256
  {
    if k + 3 <= |s| && s[k] == '%' && HexValue(s[k + 1]).Some? && HexValue(s[k + 2]).Some? then
      Some(16 * HexValue(s[k + 1]).value + HexValue(s[k + 2]).value)
    else None
  }

  /** `%XY` for one octet. */
  function PercentOctet(b: nat): (r: string)
    requires b < 256
    ensures |r| == 3 && Triplet(r, 0) == Some(b)
  {
    ['%', HexDigit(b / 16), HexDigit(b % 16)]
  }

  function PercentOctets(bs: seq<nat>): (r: string)
    requires forall k :: 0 <= k < |bs| ==> bs[k] < 256
    ensures |r| == 3 * |bs|
  {
    if |bs| == 0 then "" else PercentOctet(bs[0]) + PercentOctets(bs[1..])
  }

  // ---------------------------------------------------------------- UTF-8

  predicate IsScalar(v: int) {
    0 <= v < 0xD800 || 0xE000 <= v < 0x110000
  }

  predicate IsContinuation(b: nat) {
    0x80 <= b < 0xC0
  }

  /** The length of the UTF-8 sequence a leading octet of at least 0x80 announces; 0 when the octet
      cannot lead a sequence (a continuation octet, or five or more leading one bits). */
  function SequenceLength(b: nat): nat {
    if 0xC0 <= b < 0xE0 then 2
    else if 0xE0 <= b < 0xF0 then 3
    else if 0xF0 <= b < 0xF8 then 4
    else 0
  }

  /** The code point a well-formed UTF-8 sequence of two to four octets encodes, or `None` for an
      overlong form, a surrogate or a value past U+10FFFF. */
  function Utf8Decode(bs: seq<nat>): Option<char> {
    if |bs| < 2 || |bs| > 4 || SequenceLength(bs[0]) != |bs| then None
    else if !IsContinuation(bs[1]) then None
    else if |bs| == 2 then
      var v := (bs[0] - 0xC0) * 64 + (bs[1] - 0x80);
      if v < 0x80 then None else Some(v as char)
    else if !IsContinuation(bs[2]) then None
    else if |bs| == 3 then
      var v := (bs[0] - 0xE0) * 4096 + (bs[1] - 0x80) * 64 + (bs[2] - 0x80);
      if v < 0x800 || !IsScalar(v) then None else Some(v as char)
    else if !IsContinuation(bs[3]) then None
    else
      var v := (bs[0] - 0xF0) * 262144 + (bs[1] - 0x80) * 4096 + (bs[2] - 0x80) * 64 + (bs[3] - 0x80);
      if v < 0x10000 || !IsScalar(v) then None else Some(v as char)
  }

  /** The UTF-8 octets of a character. */
  function Utf8Encode(c: char): (bs: seq<nat>)
    ensures 1 <= |bs| <= 4
    ensures forall k :: 0 <= k < |bs| ==> bs[k] < 256
    ensures |bs| == 1 <==> c as int < 0x80
    ensures |bs| == 1 ==> bs[0] == c as int
  {
    var v := c as int;
    if v < 0x80 then [v]
    else if v < 0x800 then [0xC0 + v / 64, 0x80 + v % 64]
    else if v < 0x10000 then [0xE0 + v / 4096, 0x80 + (v / 64) % 64, 0x80 + v % 64]
    else [0xF0 + v / 262144, 0x80 + (v / 4096) % 64, 0x80 + (v / 64) % 64, 0x80 + v % 64]
  }

  /** Encoding a character as UTF-8 and decoding the octets gives the character back. */
  lemma Utf8RoundTrip(c: char)
    requires c as int >= 0x80
    ensures SequenceLength(Utf8Encode(c)[0]) == |Utf8Encode(c)|
    ensures Utf8Decode(Utf8Encode(c)) == Some(c)
  {
    var v := c as int;
    var q := v / 64;
    assert v == 64 * q + v % 64;
    if v >= 0x800 {
      var q2 := q / 64;
      assert q == 64 * q2 + q % 64;
      assert q2 == v / 4096;
      if v >= 0x10000 {
        var q3 := q2 / 64;
        assert q2 == 64 * q3 + q2 % 64;
        assert q3 == v / 262144;
        assert (v / 4096) % 64 == q2 % 64;
      }
    }
  }

  // ---------------------------------------------------------------- decodeURIComponent

  /** Puts `p` in front of a successful result; a failure stays a failure. */
  function Prepend(p: string, r: Result<string, UriError>): Result<string, UriError> {
    match r
    case Success(t) => Success(p + t)
    case Failure(e) => Failure(e)
  }

  /** The octets of the triplets at indices 3 * j for `j` from `from` below `n`. */
  function Octets(s: string, from: nat, n: nat): Option<seq<nat>>
    requires from <= n && 3 * n <= |s|
    decreases n - from
  {
    if from == n then Some([])
    else match Triplet(s, 3 * from)
      case None => None
      case Some(b) =>
        match Octets(s, from + 1, n)
        case None => None
        case Some(bs) => Some([b] + bs)
  }

  /** `decodeURIComponent(s)`: every escape is decoded, including those of reserved characters. */
  function Decode(s: string): Result<string, UriError>
    decreases |s|
  {
    if |s| == 0 then Success("")
    else if s[0] != '%' then Prepend([s[0]], Decode(s[1..]))
    else match Triplet(s, 0)
      case None => Failure(UriError)
      case Some(b) =>
        if b < 0x80 then Prepend([b as char], Decode(s[3..]))
        else
          var n := SequenceLength(b);
          if n == 0 || |s| < 3 * n then Failure(UriError)
          else match Octets(s, 1, n)
            case None => Failure(UriError)
            case Some(rest) =>
              match Utf8Decode([b] + rest)
              case None => Failure(UriError)
              case Some(c) => Prepend([c], Decode(s[3 * n..]))
  }

  // ---------------------------------------------------------------- encodeURIComponent

  /** The characters `encodeURIComponent` leaves as they are. */
  predicate Unescaped(c: char) {
    'A' <= c <= 'Z' || 'a' <= c <= 'z' || '0' <= c <= '9'
    || c == '-' || c == '_' || c == '.' || c == '!' || c == '~' || c == '*' || c == '\'' || c == '('
    || c == ')'
  }

  function EncodeChar(c: char): string {
    if Unescaped(c) then [c] else PercentOctets(Utf8Encode(c))
  }

  /** `encodeURIComponent(s)`. */
  function Encode(s: string): string {
    if |s| == 0 then "" else EncodeChar(s[0]) + Encode(s[1..])
  }

  lemma {:induction false} EncodeAppend(a: string, b: string)
    ensures Encode(a + b) == Encode(a) + Encode(b)
    decreases |a|
  {
    if |a| > 0 {
      assert (a + b)[1..] == a[1..] + b;
      EncodeAppend(a[1..], b);
    } else {
      assert a + b == b;
    }
  }

  /** Octet `j` of a percent-encoded octet sequence sits at index `3 * j`. */
  lemma {:induction false} TripletOfOctets(bs: seq<nat>, t: string, j: nat)
    requires forall k :: 0 <= k < |bs| ==> bs[k] < 256
    requires j < |bs|
    ensures Triplet(PercentOctets(bs) + t, 3 * j) == Some(bs[j])
    decreases j
  {
    var head := PercentOctet(bs[0]);
    var w := PercentOctets(bs[1..]) + t;
    Regroup(head, PercentOctets(bs[1..]), t);
    if j == 0 {
      TripletOfPrefix(head, w);
    } else {
      TripletOfOctets(bs[1..], t, j - 1);
      TripletAfter(head, w, 3 * (j - 1));
    }
  }

  lemma Regroup(a: string, b: string, c: string)
    ensures a + b + c == a + (b + c)
  {
  }

  /** The triplet at the start of a text depends only on its first three characters. */
  lemma TripletOfPrefix(a: string, w: string)
    requires |a| == 3
    ensures Triplet(a + w, 0) == Triplet(a, 0)
  {
    assert (a + w)[0] == a[0] && (a + w)[1] == a[1] && (a + w)[2] == a[2];
  }

  /** The triplets after a prefix are those of the rest, shifted by the prefix's length. */
  lemma TripletAfter(a: string, w: string, k: nat)
    ensures Triplet(a + w, |a| + k) == Triplet(w, k)
  {
    if k + 3 <= |w| {
      assert (a + w)[|a| + k] == w[k] && (a + w)[|a| + k + 1] == w[k + 1] && (a + w)[|a| + k + 2] == w[k + 2];
    }
  }

  lemma {:induction false} OctetsOfPercentOctets(bs: seq<nat>, t: string, from: nat)
    requires forall k :: 0 <= k < |bs| ==> bs[k] < 256
    requires from <= |bs|
    ensures Octets(PercentOctets(bs) + t, from, |bs|) == Some(bs[from..])
    decreases |bs| - from
  {
    if from < |bs| {
      TripletOfOctets(bs, t, from);
      OctetsOfPercentOctets(bs, t, from + 1);
      assert bs[from..] == [bs[from]] + bs[from + 1..];
    }
  }

  /** Decoding the encoding of one character, followed by anything, yields that character first. */
  lemma DecodeEncodeChar(c: char, t: string)
    ensures Decode(EncodeChar(c) + t) == Prepend([c], Decode(t))
  {
    var u := EncodeChar(c) + t;
    if Unescaped(c) {
      assert u[1..] == t;
    } else {
      var bs := Utf8Encode(c);
      TripletOfOctets(bs, t, 0);
      assert u[3 * |bs|..] == t;
      if |bs| > 1 {
        Utf8RoundTrip(c);
        OctetsOfPercentOctets(bs, t, 1);
        assert [bs[0]] + bs[1..] == bs;
      }
    }
  }

  /** `decodeURIComponent(encodeURIComponent(s)) == s`. */
  lemma {:induction false} DecodeEncode(s: string)
    ensures Decode(Encode(s)) == Success(s)
    decreases |s|
  {
    if |s| > 0 {
      DecodeEncodeChar(s[0], Encode(s[1..]));
      DecodeEncode(s[1..]);
      assert [s[0]] + s[1..] == s;
    }
  }

  /** Decoding an encoded text followed by anything yields that text first: decoding reads the encoding
      of a text back whatever follows it. */
  lemma {:induction false} DecodeEncodedPrefix(a: string, t: string)
    ensures Decode(Encode(a) + t) == Prepend(a, Decode(t))
    decreases |a|
  {
    if |a| == 0 {
      assert Encode(a) + t == t;
      PrependNothing(Decode(t));
    } else {
      var rest := Encode(a[1..]) + t;
      assert Encode(a) + t == EncodeChar(a[0]) + rest;
      DecodeEncodeChar(a[0], rest);
      DecodeEncodedPrefix(a[1..], t);
      PrependTwice([a[0]], a[1..], Decode(t));
      assert [a[0]] + a[1..] == a;
    }
  }

  lemma PrependNothing(r: Result<string, UriError>)
    ensures Prepend("", r) == r
  {
    if r.Success? {
      assert "" + r.value == r.value;
    }
  }

  lemma PrependTwice(p: string, q: string, r: Result<string, UriError>)
    ensures Prepend(p, Prepend(q, r)) == Prepend(p + q, r)
  {
    if r.Success? {
      assert p + (q + r.value) == (p + q) + r.value;
    }
  }

  /** The scheme of an http(s) address followed by the encoded `://`. */
  lemma EncodedSchemeOfScheme(scheme: string)
    requires scheme == "http" || scheme == "https"
    ensures Encode(scheme + "://") == scheme + "%3A%2F%2F"
  {
    EncodeAppend(scheme, "://");
    UnescapedUnchanged(scheme);
    EncodeSeparator();
  }

  /** An http(s) address encodes to a string starting with the encoded scheme. */
  lemma EncodedSchemePrefix(scheme: string, w: string)
    requires scheme == "http" || scheme == "https"
    ensures scheme + "%3A%2F%2F" <= Encode(scheme + "://" + w)
  {
    EncodeAppend(scheme + "://", w);
    EncodeAppend(scheme, "://");
    UnescapedUnchanged(scheme);
    EncodeSeparator();
  }

  lemma EncodeSeparator()
    ensures Encode("://") == "%3A%2F%2F"
  {
    EncodeOctet('/', "");
    assert "/" == ['/'] + "";
    EncodeOctet('/', "/");
    assert "//" == ['/'] + "/";
    EncodeOctet(':', "//");
    assert "://" == [':'] + "//";
  }

  /** A character outside the unescaped set is written as the escape of its code. */
  lemma EncodeOctet(c: char, w: string)
    requires c == ':' || c == '/'
    ensures c == ':' ==> Encode([c] + w) == "%3A" + Encode(w)
    ensures c == '/' ==> Encode([c] + w) == "%2F" + Encode(w)
  {
    assert ([c] + w)[1..] == w;
    assert Utf8Encode(c) == [c as int];
    assert PercentOctets([c as int]) == PercentOctet(c as int);
    assert HexDigit(3) == '3' && HexDigit(10) == 'A' && HexDigit(2) == '2' && HexDigit(15) == 'F';
  }

  lemma {:induction false} UnescapedUnchanged(s: string)
    requires forall k :: 0 <= k < |s| ==> Unescaped(s[k])
    ensures Encode(s) == s
    decreases |s|
  {
    if |s| > 0 {
      UnescapedUnchanged(s[1..]);
    }
  }
}
