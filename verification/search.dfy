/**
  The search filter `filteredCommands`: each category keeps the entries whose
  name, command or description contains the search term, ignoring case, and
  categories left empty are dropped.
 */
module Search {
  import opened Strings
  import opened Seqs
  import opened Catalog

  /** The filter's test for one entry. */
  predicate Matches(cmd: Command, term: string)
    ensures Matches(cmd, term) <==>
              OccursSomewhere(ToLower(cmd.name), ToLower(term))
              || OccursSomewhere(ToLower(cmd.command), ToLower(term))
              || OccursSomewhere(ToLower(cmd.description), ToLower(term))
  {
    var t := ToLower(term);
    IncludesIff(ToLower(cmd.name), t);
    IncludesIff(ToLower(cmd.command), t);
    IncludesIff(ToLower(cmd.description), t);
    Includes(ToLower(cmd.name), t)
    || Includes(ToLower(cmd.command), t)
    || Includes(ToLower(cmd.description), t)
  }

  /** `category.items.filter(...)`: the matching entries, in their order. */
  function FilterItems(items: seq<Command>, term: string): (r: seq<Command>)
    ensures forall i :: 0 <= i < |r| ==> r[i] in items && Matches(r[i], term)
    ensures forall i :: 0 <= i < |items| ==> (items[i] in r <==> Matches(items[i], term))
    ensures IsSubsequence(r, items)
  {
    Filter(c => Matches(c, term), items)
  }

  /** `{...category, items: ...}`: the category with its entries filtered. */
  function Narrow(cat: Category, term: string): (r: Category)
    ensures r.category == cat.category
    ensures r.items == FilterItems(cat.items, term)
  {
    cat.(items := FilterItems(cat.items, term))
  }

  /** `commands.map(...)`: every category narrowed, none dropped yet. */
  function NarrowAll(cats: seq<Category>, term: string): (r: seq<Category>)
    ensures |r| == |cats|
    ensures forall k :: 0 <= k < |cats| ==> r[k] == Narrow(cats[k], term)
  {
    seq(|cats|, k requires 0 <= k < |cats| => Narrow(cats[k], term))
  }

  /** `filteredCommands`: the narrowed categories that still hold an entry. */
  function FilterCommands(cats: seq<Category>, term: string): (r: seq<Category>)
    ensures forall k :: 0 <= k < |r| ==> |r[k].items| > 0
    ensures forall k :: 0 <= k < |r| ==> r[k] in NarrowAll(cats, term)
    ensures forall k :: 0 <= k < |cats| && |Narrow(cats[k], term).items| > 0 ==> Narrow(cats[k], term) in r
    ensures IsSubsequence(r, NarrowAll(cats, term))
  {
    var narrowed := NarrowAll(cats, term);
    var r := Filter((c: Category) => |c.items| > 0, narrowed);
    assert forall k :: 0 <= k < |cats| ==> narrowed[k] == Narrow(cats[k], term);
    r
  }

  /** Every shown entry matches the term, and every catalog entry is shown
      (in some kept category) exactly when it matches. */
  lemma FilterShowsExactlyMatches(cats: seq<Category>, term: string)
    ensures forall k, i :: 0 <= k < |FilterCommands(cats, term)| && 0 <= i < |FilterCommands(cats, term)[k].items|
              ==> Matches(FilterCommands(cats, term)[k].items[i], term)
    ensures forall k, i :: 0 <= k < |cats| && 0 <= i < |cats[k].items|
              ==> (cats[k].items[i] in Narrow(cats[k], term).items && Narrow(cats[k], term) in FilterCommands(cats, term)
                   <==> Matches(cats[k].items[i], term))
  {
    var r := FilterCommands(cats, term);
    forall k, i | 0 <= k < |r| && 0 <= i < |r[k].items|
      ensures Matches(r[k].items[i], term)
    {
      var j :| 0 <= j < |cats| && NarrowAll(cats, term)[j] == r[k];
      assert r[k].items == FilterItems(cats[j].items, term);
    }
  }

  /** A category stays on the page exactly when one of its entries matches. */
  lemma CategoryKeptIff(cats: seq<Category>, term: string, k: nat)
    requires k < |cats|
    ensures Narrow(cats[k], term) in FilterCommands(cats, term)
            <==> exists i :: 0 <= i < |cats[k].items| && Matches(cats[k].items[i], term)
  {
    var items := FilterItems(cats[k].items, term);
    if exists i :: 0 <= i < |cats[k].items| && Matches(cats[k].items[i], term) {
      var i :| 0 <= i < |cats[k].items| && Matches(cats[k].items[i], term);
      assert cats[k].items[i] in items;
    }
    if Narrow(cats[k], term) in FilterCommands(cats, term) {
      assert |items| > 0;
      assert items[0] in cats[k].items;
    }
  }

  /** With the empty search term a catalog without empty categories is shown
      unchanged. */
  lemma EmptyTermShowsAll(cats: seq<Category>)
    requires forall k :: 0 <= k < |cats| ==> |cats[k].items| > 0
    ensures FilterCommands(cats, "") == cats
  {
    forall k, i | 0 <= k < |cats| && 0 <= i < |cats[k].items|
      ensures Matches(cats[k].items[i], "")
    {
      IncludesEmpty(ToLower(cats[k].items[i].name));
    }
    forall k | 0 <= k < |cats|
      ensures Narrow(cats[k], "") == cats[k]
    {
      assert FilterItems(cats[k].items, "") == cats[k].items;
    }
    assert NarrowAll(cats, "") == cats;
  }

  /** The filter depends on the search term only up to case. */
  lemma FilterIgnoresTermCase(cats: seq<Category>, t1: string, t2: string)
    requires ToLower(t1) == ToLower(t2)
    ensures FilterCommands(cats, t1) == FilterCommands(cats, t2)
  {
    forall k | 0 <= k < |cats|
      ensures Narrow(cats[k], t1) == Narrow(cats[k], t2)
    {
      FilterCongruent(c => Matches(c, t1), c => Matches(c, t2), cats[k].items);
    }
    assert NarrowAll(cats, t1) == NarrowAll(cats, t2);
  }

  /** The entry filter, one entry at a time. */
  lemma FilterItemsCons(items: seq<Command>, term: string)
    requires |items| > 0
    ensures FilterItems(items, term)
            == (if Matches(items[0], term) then [items[0]] else []) + FilterItems(items[1..], term)
  {
  }

  /** The category filter, one category at a time. */
  lemma FilterCommandsCons(cats: seq<Category>, term: string)
    requires |cats| > 0
    ensures FilterCommands(cats, term)
            == (if |Narrow(cats[0], term).items| > 0 then [Narrow(cats[0], term)] else [])
               + FilterCommands(cats[1..], term)
  {
    assert NarrowAll(cats, term)[1..] == NarrowAll(cats[1..], term);
  }

  /** A one-letter search matches an entry exactly when that letter, in
      either case, occurs in its name, command or description. */
  lemma MatchesLetter(cmd: Command, c: char)
    requires 'a' <= c <= 'z'
    ensures var u := (c as int - 32) as char;
            Matches(cmd, [c]) <==> c in cmd.name || u in cmd.name || c in cmd.command || u in cmd.command
                                   || c in cmd.description || u in cmd.description
  {
    assert ToLower([c]) == [c];
    IncludesChar(ToLower(cmd.name), c);
    IncludesChar(ToLower(cmd.command), c);
    IncludesChar(ToLower(cmd.description), c);
    LowerContains(cmd.name, c);
    LowerContains(cmd.command, c);
    LowerContains(cmd.description, c);
  }
}
