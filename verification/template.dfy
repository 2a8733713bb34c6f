/** Replacement templates of `String.prototype.replace` (GetSubstitution, section 22.1.3.19.1 of
    ECMAScript 2023): when the replacement is a string, `$` introduces a reference to the match, to the
    text around it, or to a capture group. The proxy builds some of its templates by pasting run-time
    values into them, so any `$` in those values is interpreted too. */
module Template {

  import opened Wrappers

  predicate IsDigit(c: char) {
    '0' <= c <= '9'
  }

  function DigitValue(c: char): nat
    requires IsDigit(c)
  {
    c as int - '0' as int
  }

  /** The expansion of `template` for a match `matched` preceded by `before` and followed by `after`
      in the subject string, with capture groups `captures` (`None` for a group that did not take part
      in the match). There are no named groups in the proxy's expressions, so `$<` is literal. */
  function Substitute(template: string, matched: string, before: string, after: string,
                      captures: seq<Option<string>>): string
    decreases |template|
  {
    if |template| == 0 then ""
    else if template[0] != '$' || |template| == 1 then
      [template[0]] + Substitute(template[1..], matched, before, after, captures)
    else
      var c := template[1];
      if c == '$' then "$" + Substitute(template[2..], matched, before, after, captures)
      else if c == '&' then matched + Substitute(template[2..], matched, before, after, captures)
      else if c == '`' then before + Substitute(template[2..], matched, before, after, captures)
      else if c == '\'' then after + Substitute(template[2..], matched, before, after, captures)
      else if IsDigit(c) then
        var twoDigits := |template| >= 3 && IsDigit(template[2]);
        var index2 := if twoDigits then 10 * DigitValue(c) + DigitValue(template[2]) else DigitValue(c);
        // A two-digit reference beyond the last group is read as one digit and a literal digit.
        var digitCount := if twoDigits && index2 <= |captures| then 2 else 1;
        var index := if digitCount == 2 then index2 else DigitValue(c);
        var refLen := 1 + digitCount;
        if 1 <= index <= |captures| then
          captures[index - 1].GetOr("") + Substitute(template[refLen..], matched, before, after, captures)
        else
          template[..refLen] + Substitute(template[refLen..], matched, before, after, captures)
      else "$" + Substitute(template[1..], matched, before, after, captures)
  }

  /** What a replacement template can refer to: the capture groups of the match (`None` for a group
      that did not take part) and the subject text before and after the match. */
  datatype Captures = Captures(groups: seq<Option<string>>, before: string, after: string)

  /** The expansion of `template` for the match `matched`. */
  function Expand(template: string, matched: string, c: Captures): string {
    Substitute(template, matched, c.before, c.after, c.groups)
  }

  /** Text without `$` is copied through unchanged. */
  lemma {:induction false} LiteralPrefix(lit: string, t: string, matched: string, before: string,
                                         after: string, captures: seq<Option<string>>)
    requires '$' !in lit
    ensures Substitute(lit + t, matched, before, after, captures)
            == lit + Substitute(t, matched, before, after, captures)
    decreases |lit|
  {
    if |lit| > 0 {
      assert (lit + t)[0] == lit[0];
      assert (lit + t)[1..] == lit[1..] + t;
      LiteralPrefix(lit[1..], t, matched, before, after, captures);
    } else {
      assert lit + t == t;
    }
  }

  /** `$n`, for a group number `n` from 1 to 9 of an expression with fewer than ten groups, stands
      for that group, whatever follows it. */
  lemma GroupReference(n: nat, t: string, matched: string, before: string, after: string,
                       captures: seq<Option<string>>)
    requires 1 <= n <= |captures| < 10
    ensures Substitute("$" + [('0' as int + n) as char] + t, matched, before, after, captures)
            == captures[n - 1].GetOr("") + Substitute(t, matched, before, after, captures)
  {
    var tpl := "$" + [('0' as int + n) as char] + t;
    assert tpl[0] == '$' && tpl[1] == ('0' as int + n) as char;
    assert tpl[2..] == t;
  }

  /** A `$`-free template is its own expansion. */
  lemma LiteralOnly(lit: string, matched: string, c: Captures)
    requires '$' !in lit
    ensures Expand(lit, matched, c) == lit
  {
    LiteralPrefix(lit, "", matched, c.before, c.after, c.groups);
    assert lit + "" == lit;
  }
}
