/**
  `command.replace(/<[^>]+>/g, value)` exactly as JavaScript evaluates it.

  When the replacement argument of `String.prototype.replace` is a string,
  it is a template, expanded for each match by the GetSubstitution operation
  of the ECMAScript Language Specification: `$$` stands for `$`, `$&` for
  the matched text, `` $` `` for the text before the match and `$'` for the
  text after it. The regex here has no capture groups and no named groups,
  so `$1`..`$99` and `$<` are copied literally, as is any other `$`.
 */
module JsReplace {
  import opened Template

  /** The expansion of the replacement template `template` for one match. */
  function Expand(template: string, matched: string, before: string, after: string): (r: string)
    ensures '$' !in template ==> r == template
    ensures template == "$$" ==> r == "$"
    ensures template == "$&" ==> r == matched
    ensures template == "$`" ==> r == before
    ensures template == "$'" ==> r == after
    decreases |template|
  {
    if |template| == 0 then ""
    else if template[0] == '$' && |template| >= 2 && template[1] in "$&`'" then
      var rest := Expand(template[2..], matched, before, after);
      match template[1]
      case '$' => "$" + rest
      case '&' => matched + rest
      case '`' => before + rest
      case _ => after + rest
    else [template[0]] + Expand(template[1..], matched, before, after)
  }

  /** The global replace of the text `rest` that follows the already
      scanned text `before`; each match sees the whole string's text before
      and after it. */
  function ReplaceRest(before: string, rest: string, value: string): (r: string)
    ensures '<' !in rest ==> r == rest
    decreases |rest|
  {
    if |rest| == 0 then ""
    else match TokenPrefix(rest)
      case Some(n) => Expand(value, rest[..n], before, rest[n..]) + ReplaceRest(before + rest[..n], rest[n..], value)
      case None => [rest[0]] + ReplaceRest(before + [rest[0]], rest[1..], value)
  }

  /** `command.replace(/<[^>]+>/g, value)` as written in the component. */
  function ReplaceAsWritten(command: string, value: string): (r: string)
    ensures '<' !in command ==> r == command
  {
    ReplaceRest("", command, value)
  }

  /** A template without `$` expands to itself. */
  lemma {:induction false} ExpandLiteral(template: string, matched: string, before: string, after: string)
    requires '$' !in template
    ensures Expand(template, matched, before, after) == template
    decreases |template|
  {
    if |template| > 0 {
      ExpandLiteral(template[1..], matched, before, after);
      assert [template[0]] + template[1..] == template;
    }
  }

  /** Whatever was scanned before, the as-written replace agrees with literal
      substitution when the value holds no `$`. */
  lemma {:induction false} ReplaceRestAgrees(before: string, rest: string, value: string)
    requires '$' !in value
    ensures ReplaceRest(before, rest, value) == Substitute(rest, value)
    decreases |rest|
  {
    if |rest| > 0 {
      match TokenPrefix(rest)
      case Some(n) =>
        ExpandLiteral(value, rest[..n], before, rest[n..]);
        ReplaceRestAgrees(before + rest[..n], rest[n..], value);
      case None =>
        ReplaceRestAgrees(before + [rest[0]], rest[1..], value);
    }
  }

  /** For every value without `$`, the as-written replace is literal substitution. */
  lemma ReplaceAsWrittenAgrees(command: string, value: string)
    requires '$' !in value
    ensures ReplaceAsWritten(command, value) == Substitute(command, value)
  {
    ReplaceRestAgrees("", command, value);
  }

  /** A leading run without `<` is copied through. */
  lemma {:induction false} ReplaceRestKeepsRun(before: string, a: string, rest: string, value: string)
    requires '<' !in a
    ensures ReplaceRest(before, a + rest, value) == a + ReplaceRest(before + a, rest, value)
    decreases |a|
  {
    if |a| == 0 {
      assert a + rest == rest;
      assert before + a == before;
    } else {
      var c, x := a[0], ReplaceRest(before + a, rest, value);
      ConsAppend(a, rest);
      assert TokenPrefix([c] + (a[1..] + rest)).None?;
      assert ([c] + (a[1..] + rest))[1..] == a[1..] + rest;
      ReplaceRestKeepsRun(before + [c], a[1..], rest, value);
      assert before + [c] + a[1..] == before + a;
      ConsAppend(a, x);
    }
  }

  /** A leading token is replaced by the expansion of `value` for that match. */
  lemma ReplaceRestToken(before: string, t: string, rest: string, value: string)
    requires IsToken(t)
    ensures ReplaceRest(before, t + rest, value)
            == Expand(value, t, before, rest) + ReplaceRest(before + t, rest, value)
  {
    var u := t + rest;
    assert u[..|t|] == t;
    TokenPrefixIs(u, |t|);
    assert u[|t|..] == rest;
  }

  /** As written, a command `a + t + b` with exactly one token `t` becomes
      `a`, then the expansion of `value` for that match, then `b`. */
  lemma ReplaceAsWrittenOneToken(a: string, t: string, b: string, value: string)
    requires '<' !in a && '<' !in b
    requires IsToken(t)
    ensures ReplaceAsWritten(a + t + b, value) == a + Expand(value, t, a, b) + b
  {
    var e := Expand(value, t, a, b);
    assert a + t + b == a + (t + b);
    assert "" + a == a;
    ReplaceRestKeepsRun("", a, t + b, value);
    ReplaceRestToken(a, t, b, value);
    assert b + "" == b;
    ReplaceRestKeepsRun(a + t, b, "", value);
    assert ReplaceRest(a + t + b, "", value) == "";
    calc {
      ReplaceAsWritten(a + t + b, value);
      a + ReplaceRest(a, t + b, value);
      a + (e + ReplaceRest(a + t, b, value));
      a + (e + (b + ""));
      { assert a + (e + (b + "")) == a + e + b; }
      a + e + b;
    }
  }

  /** As written, a command `a + t1 + m + t2` with two tokens becomes `a`,
      the expansion of `value` for the first match, `m`, then the expansion
      for the second; each expansion sees its own match's surroundings. */
  lemma ReplaceAsWrittenTwoTokens(a: string, t1: string, m: string, t2: string, value: string)
    requires '<' !in a && '<' !in m
    requires IsToken(t1) && IsToken(t2)
    ensures ReplaceAsWritten(a + t1 + m + t2, value)
            == a + Expand(value, t1, a, m + t2) + m + Expand(value, t2, a + t1 + m, "")
  {
    var e1, e2 := Expand(value, t1, a, m + t2), Expand(value, t2, a + t1 + m, "");
    assert ReplaceAsWritten(a + t1 + m + t2, value) == a + ReplaceRest(a, t1 + (m + t2), value) by {
      assert a + t1 + m + t2 == a + (t1 + (m + t2));
      assert "" + a == a;
      ReplaceRestKeepsRun("", a, t1 + (m + t2), value);
    }
    assert ReplaceRest(a, t1 + (m + t2), value) == e1 + (m + e2) by {
      ReplaceRestTokenThenRun(a, t1, m, t2, value);
      LastToken(a + t1 + m, t2, value);
    }
    assert a + (e1 + (m + e2)) == a + e1 + m + e2;
  }

  /** A token followed by a `<`-free run: the token's expansion, then the run. */
  lemma ReplaceRestTokenThenRun(before: string, t: string, m: string, rest: string, value: string)
    requires IsToken(t) && '<' !in m
    ensures ReplaceRest(before, t + (m + rest), value)
            == Expand(value, t, before, m + rest) + (m + ReplaceRest(before + t + m, rest, value))
  {
    ReplaceRestToken(before, t, m + rest, value);
    ReplaceRestKeepsRun(before + t, m, rest, value);
  }

  /** A token that ends the text: just its expansion. */
  lemma LastToken(before: string, t: string, value: string)
    requires IsToken(t)
    ensures ReplaceRest(before, t, value) == Expand(value, t, before, "")
  {
    assert t == t + "";
    ReplaceRestToken(before, t, "", value);
    assert ReplaceRest(before + t, "", value) == "";
    assert Expand(value, t, before, "") + "" == Expand(value, t, before, "");
  }

  /** A two-token command as written: with a value without `$` both
      placeholders show the value; with `$&` the command is left as it is. */
  lemma ReplaceAsWrittenTwoTokenCases(a: string, t1: string, m: string, t2: string, value: string)
    requires '<' !in a && '<' !in m
    requires IsToken(t1) && IsToken(t2)
    ensures '$' !in value ==> ReplaceAsWritten(a + t1 + m + t2, value) == a + value + m + value
    ensures value == "$&" ==> ReplaceAsWritten(a + t1 + m + t2, value) == a + t1 + m + t2
  {
    ReplaceAsWrittenTwoTokens(a, t1, m, t2, value);
    if '$' !in value {
      ExpandLiteral(value, t1, a, m + t2);
      ExpandLiteral(value, t2, a + t1 + m, "");
    }
    if value == "$&" {
      assert Expand(value, t1, a, m + t2) == t1;
      assert Expand(value, t2, a + t1 + m, "") == t2;
    }
  }

  /** The discrepancy: with the value `$&`, a one-token command keeps its
      placeholder as written, where literal substitution shows `$&`. */
  lemma DollarAmpersandKeepsToken(a: string, t: string, b: string)
    requires '<' !in a && '<' !in b
    requires IsToken(t)
    ensures ReplaceAsWritten(a + t + b, "$&") == a + t + b
    ensures Substitute(a + t + b, "$&") == a + "$&" + b
    ensures a + t + b != a + "$&" + b
  {
    ReplaceAsWrittenOneToken(a, t, b, "$&");
    assert Expand("$&", t, a, b) == t;
    NoTokenWithout(b);
    SubstituteNoToken(b, "$&");
    SubstituteSplit(a, t, b, "$&");
    assert (a + t + b)[|a|] == '<';
    assert (a + "$&" + b)[|a|] == '$';
  }

  /** On "Create Branch": `git branch <branch-name>` with `$&` typed. */
  lemma DollarAmpersandOnCreateBranch(v: string)
    requires v == "$&"
    ensures ReplaceAsWritten("git branch <branch-name>", v) == "git branch <branch-name>"
    ensures Substitute("git branch <branch-name>", v) == "git branch $&"
  {
    assert "git branch <branch-name>" == "git branch " + "<branch-name>" + "";
    DollarAmpersandKeepsToken("git branch ", "<branch-name>", "");
  }
}
