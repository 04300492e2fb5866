/** Concrete behaviour of the page on entries of the catalog. */
module CatalogFacts {
  import opened Optional
  import opened Template
  import opened EditView
  import opened Catalog
  import opened Search
  import opened Ui
  import opened JsReplace

  /** Every catalog category holds at least one entry. */
  lemma CategoriesNonEmpty()
    ensures forall k :: 0 <= k < |Commands| ==> |Commands[k].items| > 0
  {
  }

  /** With an empty search box the whole catalog is shown. */
  lemma EmptySearchShowsCatalog()
    ensures FilterCommands(Commands, "") == Commands
  {
    CategoriesNonEmpty();
    EmptyTermShowsAll(Commands);
  }

  /** An entry is editable exactly when it has a placeholder label and
      exactly when its command holds a `<`. */
  predicate Consistent(c: Command) {
    (c.editable <==> c.placeholder.Some?) && (c.editable <==> '<' in c.command)
  }

  /** Every entry of a list is consistent. */
  predicate AllConsistent(items: seq<Command>) {
    forall i :: 0 <= i < |items| ==> Consistent(items[i])
  }

  /** Every catalog entry is consistent. */
  lemma CatalogConsistent()
    ensures forall k :: 0 <= k < |Commands| ==> AllConsistent(Commands[k].items)
  {
    BasicConsistent();
    BranchConsistent();
    RemoteConsistent();
    AdvancedConsistent();
    ConfigurationConsistent();
  }

  // One category per proof keeps each proof small.
  lemma BasicConsistent() ensures AllConsistent(BasicCommands) {}
  lemma BranchConsistent() ensures AllConsistent(BranchOperations) {}
  lemma RemoteConsistent() ensures AllConsistent(RemoteOperations) {}
  lemma AdvancedConsistent() ensures AllConsistent(AdvancedOperations) {}
  lemma ConfigurationConsistent() ensures AllConsistent(Configuration) {}

  /** A consistent entry without an edit toggle shows and copies its command
      as written, whatever is stored under its id. */
  lemma FixedEntryIgnoresStored(c: Command, stored: Option<string>)
    requires Consistent(c) && !c.editable
    ensures NoToken(c.command)
    ensures RenderCommand(c.command, stored) == c.command
  {
    NoTokenWithout(c.command);
  }

  /** "Add Remote" holds two placeholders. */
  lemma AddRemoteParts()
    ensures AddRemote.command == "git remote add " + "<remote-name>" + " " + "<repository-url>"
    ensures IsToken("<remote-name>") && IsToken("<repository-url>")
  {
    assert AddRemote.command == "git remote add <remote-name> <repository-url>";
    AddRemoteSplits();
  }

  /** The text of "Add Remote" cut at its placeholders. */
  lemma AddRemoteSplits()
    ensures "git remote add <remote-name> <repository-url>"
            == "git remote add " + "<remote-name>" + " " + "<repository-url>"
  {
  }

  /** "Add Remote": the one stored value fills both placeholders. Literal
      substitution gives `git remote add v v`; as written, each placeholder
      becomes the expansion of `v` for its own match, which is `v` itself
      when `v` holds no `$`, and the placeholder itself when `v` is `$&`. */
  lemma AddRemoteFillsBoth(v: string)
    requires v != ""
    ensures RenderCommand(AddRemote.command, Some(v)) == "git remote add " + v + " " + v
    ensures ReplaceAsWritten(AddRemote.command, v)
            == "git remote add " + Expand(v, "<remote-name>", "git remote add ", " <repository-url>")
               + " " + Expand(v, "<repository-url>", "git remote add <remote-name> ", "")
    ensures '$' !in v ==> ReplaceAsWritten(AddRemote.command, v) == "git remote add " + v + " " + v
    ensures v == "$&" ==> ReplaceAsWritten(AddRemote.command, v) == AddRemote.command
  {
    AddRemoteLiteral(v);
    AddRemoteAsWritten(v);
  }

  /** "Add Remote" under literal substitution. */
  lemma AddRemoteLiteral(v: string)
    requires v != ""
    ensures RenderCommand(AddRemote.command, Some(v)) == "git remote add " + v + " " + v
  {
    AddRemoteParts();
    SubstituteTwoTokens("git remote add ", "<remote-name>", " ", "<repository-url>", v);
  }

  /** "Add Remote" as the component's replace computes it. */
  lemma AddRemoteAsWritten(v: string)
    ensures ReplaceAsWritten(AddRemote.command, v)
            == "git remote add " + Expand(v, "<remote-name>", "git remote add ", " <repository-url>")
               + " " + Expand(v, "<repository-url>", "git remote add <remote-name> ", "")
    ensures '$' !in v ==> ReplaceAsWritten(AddRemote.command, v) == "git remote add " + v + " " + v
    ensures v == "$&" ==> ReplaceAsWritten(AddRemote.command, v) == AddRemote.command
  {
    var a, t1, m, t2 := "git remote add ", "<remote-name>", " ", "<repository-url>";
    assert m + t2 == " <repository-url>";
    assert a + t1 + m == "git remote add <remote-name> ";
    AddRemoteParts();
    ReplaceAsWrittenTwoTokens(a, t1, m, t2, v);
    ReplaceAsWrittenTwoTokenCases(a, t1, m, t2, v);
  }

  /** "Create Branch" with a value typed in. Literal substitution gives
      `git branch v`; as written, the placeholder becomes the expansion of
      `v` for the match, which is `v` itself when `v` holds no `$`. */
  lemma CreateBranchSubstituted(v: string)
    ensures CreateBranch.command == "git branch <branch-name>"
    ensures v != "" ==> RenderCommand(CreateBranch.command, Some(v)) == "git branch " + v
    ensures ReplaceAsWritten(CreateBranch.command, v) == "git branch " + Expand(v, "<branch-name>", "git branch ", "")
    ensures '$' !in v ==> ReplaceAsWritten(CreateBranch.command, v) == "git branch " + v
  {
    CreateBranchLiteral(v);
    CreateBranchAsWritten(v);
  }

  /** "Create Branch" under literal substitution. */
  lemma CreateBranchLiteral(v: string)
    ensures CreateBranch.command == "git branch <branch-name>"
    ensures v != "" ==> RenderCommand(CreateBranch.command, Some(v)) == "git branch " + v
  {
    assert CreateBranch.command == "git branch " + "<branch-name>" + "";
    NoTokenWithout("");
    SubstituteNoToken("", v);
    SubstituteSplit("git branch ", "<branch-name>", "", v);
  }

  /** "Create Branch" as the component's replace computes it. */
  lemma CreateBranchAsWritten(v: string)
    ensures ReplaceAsWritten(CreateBranch.command, v) == "git branch " + Expand(v, "<branch-name>", "git branch ", "")
    ensures '$' !in v ==> ReplaceAsWritten(CreateBranch.command, v) == "git branch " + v
  {
    assert CreateBranch.command == "git branch " + "<branch-name>" + "";
    ReplaceAsWrittenOneToken("git branch ", "<branch-name>", "", v);
    if '$' !in v {
      ExpandLiteral(v, "<branch-name>", "git branch ", "");
    }
  }

  /** "Initialize Repository" shows `git init` whatever is stored for it. */
  lemma GitInitUnchanged(stored: Option<string>)
    ensures RenderCommand(InitializeRepository.command, stored) == "git init"
  {
    NoTokenWithout("git init");
  }

  /** `<>` is not a placeholder: `[^>]+` needs a character inside. */
  lemma EmptyBracketsKept(value: string)
    ensures Substitute("git add <>", value) == "git add <>"
  {
    assert "git add <>" == "git add " + "<>";
    SubstituteKeepsPrefix("git add ", "<>", value);
    assert TokenPrefix("<>").None?;
    assert Substitute("<>", value) == "<" + Substitute(">", value);
  }

}
