/**
  The component's state and event handlers as pure functions on an explicit
  state record, and the page they render: one section per shown category,
  one card per shown entry, each card keyed by its position in the shown
  (filtered) list.
 */
module Ui {
  import opened Optional
  import opened Ids
  import opened Template
  import opened EditView
  import opened Catalog
  import opened Search
  import opened JsReplace

  /** The four `useState` slots; ids are the card keys `${k}-${i}`. */
  datatype UiState = UiState(
    searchTerm: string,
    copiedCommand: Option<string>,
    editableValues: map<string, string>,
    editingCommand: Option<string>)

  /** The state on first render. */
  function Initial(): (r: UiState)
    ensures r.searchTerm == "" && r.copiedCommand.None? && r.editingCommand.None?
    ensures forall id :: StoredValue(r, id).None?
  {
    UiState("", None, map[], None)
  }

  /** The search box's change handler. */
  function SetSearchTerm(st: UiState, term: string): (r: UiState)
    ensures r.searchTerm == term
    ensures r.(searchTerm := st.searchTerm) == st
  {
    st.(searchTerm := term)
  }

  /** `handleEdit(value, id)`: stores `value` under `id`, keeping every other
      stored value. */
  function HandleEdit(st: UiState, value: string, id: string): (r: UiState)
    ensures r.editableValues.Keys == st.editableValues.Keys + {id}
    ensures r.editableValues[id] == value
    ensures forall k :: k in st.editableValues && k != id ==> r.editableValues[k] == st.editableValues[k]
    ensures r.(editableValues := st.editableValues) == st
  {
    st.(editableValues := st.editableValues[id := value])
  }

  /** `toggleEdit(id)`: closes the editor when `id` is the one being edited,
      else opens it on `id`. */
  function ToggleEdit(st: UiState, id: string): (r: UiState)
    ensures r.editingCommand == Some(id) <==> st.editingCommand != Some(id)
    ensures r.editingCommand.None? <==> st.editingCommand == Some(id)
    ensures r.(editingCommand := st.editingCommand) == st
  {
    st.(editingCommand := if st.editingCommand == Some(id) then None else Some(id))
  }

  /** Toggling the same id twice from "not editing" or from "editing `id`"
      restores the state, stored values included; from another id it ends
      with nothing being edited. */
  lemma ToggleEditTwice(st: UiState, id: string)
    ensures st.editingCommand.None? || st.editingCommand == Some(id)
            ==> ToggleEdit(ToggleEdit(st, id), id) == st
    ensures st.editingCommand.Some? && st.editingCommand != Some(id)
            ==> ToggleEdit(ToggleEdit(st, id), id) == st.(editingCommand := None)
  {
  }

  /** `editableValues[id]`: `undefined` when nothing was typed for `id`. */
  function StoredValue(st: UiState, id: string): (r: Option<string>)
    ensures r.Some? <==> id in st.editableValues
    ensures r.Some? ==> r.value == st.editableValues[id]
  {
    if id in st.editableValues then Some(st.editableValues[id]) else None
  }

  /** `handleCopy(command, id)`: the text written to the clipboard, and the
      state once the write has settled; `clipboardAccepts` says whether
      `writeText` resolved. A rejected write only logs. With a value stored,
      the text is the command's canonical reading with the value in every
      placeholder, which for a value without `$` is also what the
      component's `replace` computes. */
  function HandleCopy(st: UiState, command: string, id: string, clipboardAccepts: bool): (r: (string, UiState))
    ensures !Truthy(StoredValue(st, id)) ==> r.0 == command
    ensures NoToken(command) ==> r.0 == command
    ensures var stored := StoredValue(st, id);
            Truthy(stored) ==>
              forall ps :: Canonical(ps) && Flatten(ps) == command ==> r.0 == Fill(ps, stored.value)
    ensures var stored := StoredValue(st, id);
            Truthy(stored) && '$' !in stored.value ==> r.0 == ReplaceAsWritten(command, stored.value)
    ensures clipboardAccepts ==> r.1 == st.(copiedCommand := Some(id))
    ensures !clipboardAccepts ==> r.1 == st
  {
    var stored := StoredValue(st, id);
    var text := RenderCommand(command, stored);
    assert Truthy(stored) && '$' !in stored.value ==> text == ReplaceAsWritten(command, stored.value) by {
      if Truthy(stored) && '$' !in stored.value {
        ReplaceAsWrittenAgrees(command, stored.value);
      }
    }
    (text, if clipboardAccepts then st.(copiedCommand := Some(id)) else st)
  }

  /** The callback the copy arms with `setTimeout`: it clears the indicator
      whichever id it shows by then. */
  function CopyTimerFired(st: UiState): (r: UiState)
    ensures r.copiedCommand.None?
    ensures r.(copiedCommand := st.copiedCommand) == st
  {
    st.(copiedCommand := None)
  }

  /** Every copy arms the same unconditional reset, so whichever armed timer
      fires, it clears whichever indicator is shown: after copies of `id1`
      and then `id2`, the indicator shows `id2` and any firing clears it. */
  lemma CopyTimerClearsAnyIndicator(st: UiState, c1: string, id1: string, c2: string, id2: string)
    ensures var s1 := HandleCopy(st, c1, id1, true).1;
            var s2 := HandleCopy(s1, c2, id2, true).1;
            s2.copiedCommand == Some(id2) && CopyTimerFired(s2).copiedCommand.None?
  {
  }

  /** What a card shows as its command. */
  datatype CommandView =
    | Plain(text: string)
    | Editing(before: string, input: string, after: string)

  /** The command area of a card: the editor when the entry is editable and
      open, else the rendered command. */
  function ViewCommand(st: UiState, cmd: Command, id: string): (r: CommandView)
    ensures r.Editing? <==> cmd.editable && st.editingCommand == Some(id)
    ensures r.Editing? ==> '<' !in r.before && '>' !in r.after
    ensures r.Editing? ==> (r.input == "" <==> !Truthy(StoredValue(st, id)))
    ensures r.Editing? ==> && r.before == EditPrefix(cmd.command)
                           && r.after == EditSuffix(cmd.command).ValueOr("")
                           && r.input == StoredValue(st, id).ValueOr("")
    ensures r.Plain? ==> r.text == RenderCommand(cmd.command, StoredValue(st, id))
  {
    if cmd.editable && st.editingCommand == Some(id) then
      Editing(EditPrefix(cmd.command), StoredValue(st, id).ValueOr(""), EditSuffix(cmd.command).ValueOr(""))
    else
      Plain(RenderCommand(cmd.command, StoredValue(st, id)))
  }

  /** The string copied for an id is the string the closed card shows for it. */
  lemma CopyMatchesPlainView(st: UiState, cmd: Command, id: string, clipboardAccepts: bool)
    requires !(cmd.editable && st.editingCommand == Some(id))
    ensures ViewCommand(st, cmd, id) == Plain(HandleCopy(st, cmd.command, id, clipboardAccepts).0)
  {
  }

  /** For a command with one placeholder `a + t + b` (no `<` or `>` in `a`, no
      `>` in `b`), the open editor reads `a`, the typed value, `b`, which is
      the copied text once a value is typed. */
  lemma EditViewMatchesCopy(st: UiState, cmd: Command, id: string, a: string, t: string, b: string)
    requires cmd.command == a + t + b
    requires '<' !in a && '>' !in a && IsToken(t) && '>' !in b
    requires cmd.editable && st.editingCommand == Some(id)
    requires Truthy(StoredValue(st, id))
    ensures ViewCommand(st, cmd, id) == Editing(a, st.editableValues[id], b)
    ensures a + st.editableValues[id] + b == HandleCopy(st, cmd.command, id, true).0
  {
    OneTokenEdges(a, t, b);
    OneTokenFilled(a, t, b, st.editableValues[id]);
  }

  /** The split views of a one-placeholder command. */
  lemma OneTokenEdges(a: string, t: string, b: string)
    requires '<' !in a && '>' !in a && IsToken(t) && '>' !in b
    ensures EditPrefix(a + t + b) == a
    ensures EditSuffix(a + t + b) == Some(b)
  {
    var s := a + t + b;
    assert s == a + (t + b);
    EditPrefixIs(a, t + b);
    var i := |a| + |t| - 1;
    assert s[..i] == a + t[..|t| - 1];
    assert t[..|t| - 1] == [t[0]] + t[1..|t| - 1];
    assert s[i] == t[|t| - 1];
    assert s[i + 1..|s|] == b;
    EditSuffixBetween(s, i, |s|);
  }

  /** Literal substitution into a one-placeholder command. */
  lemma OneTokenFilled(a: string, t: string, b: string, v: string)
    requires '<' !in a && IsToken(t) && '>' !in b
    ensures Substitute(a + t + b, v) == a + v + b
  {
    SubstituteSplit(a, t, b, v);
    NoTokenWithout(b);
    SubstituteNoToken(b, v);
  }

  /** For a command with two placeholders `a + t1 + m + t2`, the open editor
      reads `a`, the typed value, then `m` and `t2` without its closing `>`:
      the split at `>` keeps only the text between the first and second `>`.
      The copy fills both placeholders, so the two agree only when the typed
      value is that cut-off token. */
  lemma EditViewCutsAtSecondToken(st: UiState, cmd: Command, id: string, a: string, t1: string, m: string, t2: string)
    requires cmd.command == a + t1 + m + t2
    requires '<' !in a && '>' !in a && IsToken(t1)
    requires '<' !in m && '>' !in m && IsToken(t2)
    requires cmd.editable && st.editingCommand == Some(id)
    requires Truthy(StoredValue(st, id))
    ensures var v := st.editableValues[id];
            ViewCommand(st, cmd, id) == Editing(a, v, m + t2[..|t2| - 1])
    ensures var v := st.editableValues[id];
            HandleCopy(st, cmd.command, id, true).0 == a + v + m + v
    ensures var v := st.editableValues[id];
            a + v + m + t2[..|t2| - 1] == HandleCopy(st, cmd.command, id, true).0 <==> v == t2[..|t2| - 1]
  {
    var v := st.editableValues[id];
    TwoTokenEdges(a, t1, m, t2);
    SubstituteTwoTokens(a, t1, m, t2, v);
    var p := a + v + m;
    assert a + v + m + t2[..|t2| - 1] == p + t2[..|t2| - 1];
    assert a + v + m + v == p + v;
    if p + t2[..|t2| - 1] == p + v {
      assert t2[..|t2| - 1] == (p + t2[..|t2| - 1])[|p|..];
      assert v == (p + v)[|p|..];
    }
  }

  /** The split views of a two-placeholder command. */
  lemma TwoTokenEdges(a: string, t1: string, m: string, t2: string)
    requires '<' !in a && '>' !in a && IsToken(t1)
    requires '<' !in m && '>' !in m && IsToken(t2)
    ensures EditPrefix(a + t1 + m + t2) == a
    ensures EditSuffix(a + t1 + m + t2) == Some(m + t2[..|t2| - 1])
  {
    var s := a + t1 + m + t2;
    assert s == a + (t1 + m + t2);
    EditPrefixIs(a, t1 + m + t2);
    var i := |a| + |t1| - 1;
    var j := |s| - 1;
    assert s[..i] == a + t1[..|t1| - 1];
    assert t1[..|t1| - 1] == [t1[0]] + t1[1..|t1| - 1];
    assert s[i] == t1[|t1| - 1];
    assert s[i + 1..j] == m + t2[..|t2| - 1];
    assert t2[..|t2| - 1] == [t2[0]] + t2[1..|t2| - 1];
    assert s[j] == t2[|t2| - 1];
    EditSuffixBetween(s, i, j);
  }

  /** One entry's card. */
  datatype Card = Card(
    id: string,
    name: string,
    description: string,
    showsEditToggle: bool,
    toggleShowsClose: bool,
    showsCopiedCheck: bool,
    body: CommandView)

  /** One category's section. */
  datatype Section = Section(title: string, cards: seq<Card>)

  /** The card for entry `cmd` under id `id`. */
  function ViewCard(st: UiState, cmd: Command, id: string): (r: Card)
    ensures r.id == id && r.name == cmd.name && r.description == cmd.description
    ensures r.showsEditToggle == cmd.editable
    ensures r.toggleShowsClose <==> st.editingCommand == Some(id)
    ensures r.showsCopiedCheck <==> st.copiedCommand == Some(id)
  {
    Card(id, cmd.name, cmd.description, cmd.editable,
         st.editingCommand == Some(id), st.copiedCommand == Some(id),
         ViewCommand(st, cmd, id))
  }

  /** The section for the `k`-th shown category. */
  function ViewSection(st: UiState, k: nat, cat: Category): Section {
    Section(cat.category,
            seq(|cat.items|, i requires 0 <= i < |cat.items| => ViewCard(st, cat.items[i], CommandId(k, i))))
  }

  /** On first render every card is closed and unmarked, and shows its
      command with the placeholders as written. */
  lemma FirstRenderCard(cmd: Command, id: string)
    ensures ViewCard(Initial(), cmd, id)
            == Card(id, cmd.name, cmd.description, cmd.editable, false, false, Plain(cmd.command))
  {
    assert StoredValue(Initial(), id).None?;
  }

  /** The page: the filtered catalog, each card keyed by its position in the
      filtered list. */
  function Page(st: UiState, cats: seq<Category>): (r: seq<Section>)
    ensures var shown := FilterCommands(cats, st.searchTerm);
            && |r| == |shown|
            && (forall k :: 0 <= k < |r| ==> r[k].title == shown[k].category && |r[k].cards| == |shown[k].items|)
            && (forall k, i :: 0 <= k < |r| && 0 <= i < |r[k].cards| ==>
                  r[k].cards[i] == ViewCard(st, shown[k].items[i], CommandId(k, i)))
  {
    var shown := FilterCommands(cats, st.searchTerm);
    seq(|shown|, k requires 0 <= k < |shown| => ViewSection(st, k, shown[k]))
  }

  /** No two cards on a page share an id. */
  lemma PageIdsDistinct(st: UiState, cats: seq<Category>)
    ensures var p := Page(st, cats);
            forall k1, i1, k2, i2 ::
              0 <= k1 < |p| && 0 <= i1 < |p[k1].cards| && 0 <= k2 < |p| && 0 <= i2 < |p[k2].cards|
              && (k1 != k2 || i1 != i2)
              ==> p[k1].cards[i1].id != p[k2].cards[i2].id
  {
    var p := Page(st, cats);
    forall k1, i1, k2, i2 |
      0 <= k1 < |p| && 0 <= i1 < |p[k1].cards| && 0 <= k2 < |p| && 0 <= i2 < |p[k2].cards|
      && (k1 != k2 || i1 != i2)
      ensures p[k1].cards[i1].id != p[k2].cards[i2].id
    {
      var shown := FilterCommands(cats, st.searchTerm);
      assert p[k1].cards[i1].id == CommandId(k1, i1) by {
        assert p[k1].cards[i1] == ViewCard(st, shown[k1].items[i1], CommandId(k1, i1));
      }
      assert p[k2].cards[i2].id == CommandId(k2, i2) by {
        assert p[k2].cards[i2] == ViewCard(st, shown[k2].items[i2], CommandId(k2, i2));
      }
      CommandIdInjective(k1, i1, k2, i2);
    }
  }

  /** Stored values are keyed by position in the shown list, not by entry.
      When a search hides the whole first category, card `0-0` shows the
      first match of the second; a value typed there shows up, once the
      search is cleared, in the first entry of the first category. */
  lemma StoredValueFollowsPosition(st: UiState, cats: seq<Category>, term: string, v: string)
    requires |cats| >= 2 && forall k :: 0 <= k < |cats| ==> |cats[k].items| > 0
    requires FilterItems(cats[0].items, term) == [] && |FilterItems(cats[1].items, term)| > 0
    requires st.editingCommand.None?
    ensures var searching := SetSearchTerm(st, term);
            var cleared := SetSearchTerm(HandleEdit(searching, v, "0-0"), "");
            && |Page(searching, cats)| > 0 && |Page(searching, cats)[0].cards| > 0
            && Page(searching, cats)[0].cards[0].id == "0-0"
            && Page(searching, cats)[0].cards[0].name == FilterItems(cats[1].items, term)[0].name
            && |Page(cleared, cats)| > 0 && |Page(cleared, cats)[0].cards| > 0
            && Page(cleared, cats)[0].cards[0].id == "0-0"
            && Page(cleared, cats)[0].cards[0].name == cats[0].items[0].name
            && Page(cleared, cats)[0].cards[0].body == Plain(RenderCommand(cats[0].items[0].command, Some(v)))
  {
    var searching := SetSearchTerm(st, term);
    var cleared := SetSearchTerm(HandleEdit(searching, v, "0-0"), "");
    assert CommandId(0, 0) == "0-0";
    FilterCommandsCons(cats, term);
    FilterCommandsCons(cats[1..], term);
    assert FilterCommands(cats, term)[0] == Narrow(cats[1], term);
    EmptyTermShowsAll(cats);
    assert StoredValue(cleared, "0-0") == Some(v);
  }
}
