/**
  The edit view of a command: the text before the input box,
  `command.split('<')[0]`, and the text after it, `command.split('>')[1]`.
 */
module EditView {
  import opened Optional
  import opened Strings

  /** The leading text: everything before the first `<`, or the whole command
      when it has none. */
  function EditPrefix(command: string): (r: string)
    ensures '<' !in r
    ensures |r| <= |command| && command[..|r|] == r
    ensures |r| < |command| ==> command[|r|] == '<'
  {
    var fields := Split(command, '<');
    JoinSplit(command, '<');
    assert command == fields[0] || command == fields[0] + ['<'] + Join(fields[1..], '<');
    fields[0]
  }

  /** When `a` holds no `<` and the rest starts with `<`, the prefix is `a`. */
  lemma EditPrefixIs(a: string, rest: string)
    requires '<' !in a
    requires |rest| > 0 && rest[0] == '<'
    ensures EditPrefix(a + rest) == a
  {
    SplitPrefix(a, rest, '<');
    assert Split(rest, '<')[0] == "";
    assert a + "" == a;
  }

  /** The trailing text: the second field of the split at `>`, which is the
      text between the first and second `>` (to the end when there is only
      one), and `undefined` when the command has no `>`. */
  function EditSuffix(command: string): (r: Option<string>)
    ensures r.None? <==> '>' !in command
    ensures r.Some? ==> '>' !in r.value
  {
    var fields := Split(command, '>');
    JoinSplit(command, '>');
    if |fields| >= 2 then
      assert command == fields[0] + ['>'] + Join(fields[1..], '>');
      assert command[|fields[0]|] == '>';
      Some(fields[1])
    else
      assert command == fields[0];
      None
  }

  /** With the first `>` at `i` and the next one at `j` (or `j` at the end),
      the suffix is exactly `command[i+1..j]`. */
  lemma EditSuffixBetween(command: string, i: nat, j: nat)
    requires i < j <= |command|
    requires command[i] == '>' && '>' !in command[..i]
    requires '>' !in command[i + 1..j]
    requires j == |command| || command[j] == '>'
    ensures EditSuffix(command) == Some(command[i + 1..j])
  {
    var rest := command[j..];
    assert command == command[..i] + ['>'] + (command[i + 1..j] + rest);
    SplitAfterSep(command[..i], command[i + 1..j] + rest, '>');
    SplitPrefix(command[i + 1..j], rest, '>');
    if j < |command| {
      assert rest == [] + ['>'] + rest[1..];
      SplitAfterSep([], rest[1..], '>');
    }
    assert command[i + 1..j] + "" == command[i + 1..j];
  }
}
