/**
  Placeholder substitution, `command.replace(/<[^>]+>/g, value)`, guarded by
  the truthiness of the stored value.

  A command is read as a sequence of pieces: placeholder tokens, which are
  the matches of `/<[^>]+>/`, and single literal characters in between.
  The global regex scan takes the leftmost match, and since `[^>]+` cannot
  cross a `>`, a match starting at a given `<` always ends at the first `>`
  after it; so the scan's decomposition is unique (see `ParseUnique`).
 */
module Template {
  import opened Optional

  /** `t` is one whole match of `/<[^>]+>/`: `<`, one or more characters other
      than `>`, then `>`. */
  predicate IsToken(t: string) {
    |t| >= 3 && t[0] == '<' && t[|t| - 1] == '>' && '>' !in t[1..|t| - 1]
  }

  /** No substring of `s` is a token, so the regex finds no match in it. */
  ghost predicate NoToken(s: string) {
    forall i, j :: 0 <= i <= j <= |s| ==> !IsToken(s[i..j])
  }

  /** The first index `k >= from` with `s[k] == c`. */
  function FirstFrom(s: string, c: char, from: nat): (r: Option<nat>)
    requires from <= |s|
    ensures r.Some? ==> from <= r.value < |s| && s[r.value] == c && c !in s[from..r.value]
    ensures r.None? ==> c !in s[from..]
    decreases |s| - from
  {
    if from == |s| then None
    else if s[from] == c then Some(from)
    else FirstFrom(s, c, from + 1)
  }

  /** The length of the regex match anchored at the start of `s`, if any: a
      `<` whose first following `>` is not the very next character. */
  function TokenPrefix(s: string): (r: Option<nat>)
    ensures r.Some? ==> 3 <= r.value <= |s|
  {
    if |s| == 0 || s[0] != '<' then None
    else match FirstFrom(s, '>', 1)
      case None => None
      case Some(j) => if j == 1 then None else Some(j + 1)
  }

  /** The anchored scan finds a token exactly when some prefix of `s` is one,
      and then it finds that prefix, the only one. */
  lemma TokenPrefixSpec(s: string)
    ensures TokenPrefix(s).Some? ==> IsToken(s[..TokenPrefix(s).value])
    ensures forall n :: 0 <= n <= |s| && IsToken(s[..n]) ==> TokenPrefix(s) == Some(n)
  {
    if TokenPrefix(s).Some? {
      var j := FirstFrom(s, '>', 1).value;
      assert s[..j + 1][1..j] == s[1..j];
    }
    forall n | 0 <= n <= |s| && IsToken(s[..n])
      ensures TokenPrefix(s) == Some(n)
    {
      TokenPrefixIs(s, n);
    }
  }

  /** A token prefix of `s` is what the anchored scan finds. */
  lemma TokenPrefixIs(s: string, n: nat)
    requires n <= |s| && IsToken(s[..n])
    ensures TokenPrefix(s) == Some(n)
  {
    var t := s[..n];
    assert t[1..n - 1] == s[1..n - 1];
    assert s[n - 1] == t[n - 1];
    FirstFromIs(s, '>', 1, n - 1);
  }

  /** `FirstFrom` stops at the first occurrence at or after `from`. */
  lemma {:induction false} FirstFromIs(s: string, c: char, from: nat, k: nat)
    requires from <= k < |s| && s[k] == c && c !in s[from..k]
    ensures FirstFrom(s, c, from) == Some(k)
    decreases k - from
  {
    if from < k {
      assert s[from] == s[from..k][0];
      assert s[from + 1..k] == s[from..k][1..];
      FirstFromIs(s, c, from + 1, k);
    }
  }

  /** A command whose first character is not `<` has no token at its start. */
  lemma NoTokenAtStart(s: string)
    requires |s| > 0 && s[0] != '<'
    ensures forall n :: 0 <= n <= |s| ==> !IsToken(s[..n])
  {
    forall n | 0 <= n <= |s|
      ensures !IsToken(s[..n])
    {
      if n > 0 {
        assert s[..n][0] == s[0];
      }
    }
  }

  datatype Piece = Lit(c: char) | Token(text: string)

  /** The text a piece stands for in the command. */
  function PieceText(p: Piece): string {
    match p
    case Lit(c) => [c]
    case Token(t) => t
  }

  /** The command a piece sequence spells out. */
  function Flatten(ps: seq<Piece>): string
    decreases |ps|
  {
    if |ps| == 0 then "" else PieceText(ps[0]) + Flatten(ps[1..])
  }

  /** The decomposition the leftmost-match scan produces: every token piece is
      a token, and no literal character starts a token. */
  ghost predicate Canonical(ps: seq<Piece>)
    decreases |ps|
  {
    |ps| == 0
    || ((match ps[0]
         case Token(t) => IsToken(t)
         case Lit(_) =>
           var s := Flatten(ps);
           forall n :: 0 <= n <= |s| ==> !IsToken(s[..n]))
        && Canonical(ps[1..]))
  }

  /** The left-to-right regex scan of `s`: at each position, a token if one
      starts there, else one literal character. Nothing is lost: the pieces
      spell `s`. */
  function Parse(s: string): (ps: seq<Piece>)
    ensures Flatten(ps) == s
    decreases |s|
  {
    if |s| == 0 then []
    else match TokenPrefix(s)
      case Some(n) =>
        assert s[..n] + s[n..] == s;
        [Token(s[..n])] + Parse(s[n..])
      case None =>
        assert [s[0]] + s[1..] == s;
        [Lit(s[0])] + Parse(s[1..])
  }

  /** The scan's pieces form a canonical decomposition. */
  lemma {:induction false} ParseCanonical(s: string)
    ensures Canonical(Parse(s))
    decreases |s|
  {
    if |s| > 0 {
      TokenPrefixSpec(s);
      match TokenPrefix(s)
      case Some(n) =>
        ParseCanonical(s[n..]);
        assert Parse(s)[1..] == Parse(s[n..]);
      case None =>
        ParseCanonical(s[1..]);
        assert Parse(s)[1..] == Parse(s[1..]);
    }
  }

  /** The scan's decomposition is the only canonical one: parsing the text of
      a canonical piece sequence gives that sequence back. */
  lemma {:induction false} ParseUnique(ps: seq<Piece>)
    requires Canonical(ps)
    ensures Parse(Flatten(ps)) == ps
    decreases |ps|
  {
    if |ps| > 0 {
      var s := Flatten(ps);
      var rest := Flatten(ps[1..]);
      assert s == PieceText(ps[0]) + rest;
      ParseUnique(ps[1..]);
      TokenPrefixSpec(s);
      match ps[0]
      case Token(t) =>
        assert s[..|t|] == t;
        assert s[|t|..] == rest;
      case Lit(c) =>
        assert s[1..] == rest;
    }
  }

  /** The pieces with every token replaced by `value`. */
  function Fill(ps: seq<Piece>, value: string): string
    decreases |ps|
  {
    if |ps| == 0 then ""
    else
      (match ps[0]
       case Lit(c) => [c]
       case Token(_) => value)
      + Fill(ps[1..], value)
  }

  /** `command.replace(/<[^>]+>/g, value)`, with `value` inserted literally:
      the regex scan, emitting `value` for each match and copying every other
      character. */
  function Substitute(command: string, value: string): (r: string)
    ensures '<' !in command ==> r == command
    decreases |command|
  {
    if |command| == 0 then ""
    else match TokenPrefix(command)
      case Some(n) => value + Substitute(command[n..], value)
      case None => [command[0]] + Substitute(command[1..], value)
  }

  /** Substitution is the scan's decomposition with `value` in every token slot. */
  lemma {:induction false} SubstituteIsFill(command: string, value: string)
    ensures Substitute(command, value) == Fill(Parse(command), value)
    decreases |command|
  {
    if |command| > 0 {
      match TokenPrefix(command)
      case Some(n) =>
        SubstituteIsFill(command[n..], value);
        assert Parse(command)[1..] == Parse(command[n..]);
      case None =>
        SubstituteIsFill(command[1..], value);
        assert Parse(command)[1..] == Parse(command[1..]);
    }
  }

  /** Broadcast substitution: for any canonical reading of the command, the
      result is that reading with the same `value` in every token slot and
      every literal character kept, in order. */
  lemma SubstituteFillsEveryToken(ps: seq<Piece>, value: string)
    requires Canonical(ps)
    ensures Substitute(Flatten(ps), value) == Fill(ps, value)
  {
    ParseUnique(ps);
    SubstituteIsFill(Flatten(ps), value);
  }

  /** One literal step of the scan: a first character other than `<` is kept. */
  lemma SubstituteLit(c: char, rest: string, value: string)
    requires c != '<'
    ensures Substitute([c] + rest, value) == [c] + Substitute(rest, value)
  {
    assert ([c] + rest)[1..] == rest;
  }

  /** One token step of the scan: a leading token becomes `value`. */
  lemma SubstituteToken(t: string, b: string, value: string)
    requires IsToken(t)
    ensures Substitute(t + b, value) == value + Substitute(b, value)
  {
    var s := t + b;
    assert s[..|t|] == t;
    TokenPrefixIs(s, |t|);
    assert s[|t|..] == b;
  }

  /** A command in which no substring is a token is left unchanged. */
  lemma {:induction false} SubstituteNoToken(command: string, value: string)
    requires NoToken(command)
    ensures Substitute(command, value) == command
    decreases |command|
  {
    if |command| > 0 {
      forall n | 0 <= n <= |command|
        ensures !IsToken(command[..n])
      {
        assert command[..n] == command[0..n];
      }
      TokenPrefixSpec(command);
      var tail := command[1..];
      assert NoToken(tail) by {
        forall i, j | 0 <= i <= j <= |tail|
          ensures !IsToken(tail[i..j])
        {
          assert tail[i..j] == command[i + 1..j + 1];
        }
      }
      SubstituteNoToken(tail, value);
      assert [command[0]] + tail == command;
    }
  }

  /** Without a `<`, or without a `>`, a command holds no token. */
  lemma NoTokenWithout(s: string)
    requires '<' !in s || '>' !in s
    ensures NoToken(s)
  {
    forall i, j | 0 <= i <= j <= |s|
      ensures !IsToken(s[i..j])
    {
      if j - i >= 3 {
        assert s[i..j][0] == s[i];
        assert s[i..j][j - i - 1] == s[j - 1];
      }
    }
  }

  /** A leading run without `<` is copied through unchanged. */
  lemma {:induction false} SubstituteKeepsPrefix(a: string, rest: string, value: string)
    requires '<' !in a
    ensures Substitute(a + rest, value) == a + Substitute(rest, value)
    decreases |a|
  {
    if |a| == 0 {
      assert a + rest == rest;
    } else {
      SubstituteKeepsPrefix(a[1..], rest, value);
      SubstituteLit(a[0], a[1..] + rest, value);
      ConsAppend(a, rest);
      ConsAppend(a, Substitute(rest, value));
    }
  }

  /** Appending to a non-empty sequence, split at its head. */
  lemma ConsAppend<T>(a: seq<T>, b: seq<T>)
    requires |a| > 0
    ensures a + b == [a[0]] + (a[1..] + b)
  {
  }

  /** Substituting into `a + t + b`, where `a` holds no `<` and `t` is a token,
      keeps `a`, puts `value` in place of `t`, and carries on with `b`. */
  lemma SubstituteSplit(a: string, t: string, b: string, value: string)
    requires '<' !in a
    requires IsToken(t)
    ensures Substitute(a + t + b, value) == a + value + Substitute(b, value)
  {
    var u := t + b;
    var x := Substitute(b, value);
    SubstituteKeepsPrefix(a, u, value);
    SubstituteToken(t, b, value);
    calc {
      Substitute(a + t + b, value);
      { assert a + t + b == a + u; }
      Substitute(a + u, value);
      a + (value + x);
      { assert a + (value + x) == a + value + x; }
      a + value + x;
    }
  }

  /** Substituting into a two-placeholder command. */
  lemma SubstituteTwoTokens(a: string, t1: string, m: string, t2: string, v: string)
    requires '<' !in a && IsToken(t1)
    requires '<' !in m && IsToken(t2)
    ensures Substitute(a + t1 + m + t2, v) == a + v + m + v
  {
    assert a + t1 + m + t2 == a + t1 + (m + t2 + "");
    SubstituteSplit(a, t1, m + t2 + "", v);
    SubstituteSplit(m, t2, "", v);
    NoTokenWithout("");
    SubstituteNoToken("", v);
  }

  /** JavaScript truthiness of a stored input value: present and non-empty. */
  predicate Truthy(stored: Option<string>) {
    stored.Some? && stored.value != ""
  }

  /** The displayed and copied command: substituted when the stored value is
      truthy, else the command itself. */
  function RenderCommand(command: string, stored: Option<string>): (r: string)
    ensures !Truthy(stored) ==> r == command
    ensures NoToken(command) ==> r == command
    ensures Truthy(stored) ==>
              forall ps :: Canonical(ps) && Flatten(ps) == command ==> r == Fill(ps, stored.value)
  {
    if Truthy(stored) then
      assert NoToken(command) ==> Substitute(command, stored.value) == command by {
        if NoToken(command) { SubstituteNoToken(command, stored.value); }
      }
      assert forall ps :: Canonical(ps) && Flatten(ps) == command ==>
                          Substitute(command, stored.value) == Fill(ps, stored.value) by {
        forall ps | Canonical(ps) && Flatten(ps) == command
          ensures Substitute(command, stored.value) == Fill(ps, stored.value)
        {
          SubstituteFillsEveryToken(ps, stored.value);
        }
      }
      Substitute(command, stored.value)
    else command
  }
}
