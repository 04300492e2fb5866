# GitBuddy command cards in Dafny

GitBuddy is a one-page React app: a searchable catalog of git commands in
five categories. Each entry is a card. A card can be copied to the
clipboard, and an editable entry's `<placeholder>` can be filled in with a
typed value. This project models the logic of the `GitCommands` component
as pure functions over an explicit state record, and proves what that
logic does:

- **Catalog** — the hard-coded catalog (26 entries in five categories),
  copied entry by entry.
- **Search** — `filteredCommands`: case-insensitive substring search over
  name, command and description, dropping categories left empty.
- **Template** — placeholder substitution by the regex `/<[^>]+>/g`. A
  token is `<`, at least one non-`>` character, then `>`. Matching is
  leftmost and does not overlap. The model gives commands a canonical
  decomposition into literal characters and tokens, proves it unique, and
  proves that substitution fills every token of it.
- **EditView** — the open editor's two labels, `split('<')[0]` and
  `split('>')[1]`, over a model of `String.prototype.split` with its
  `join` round trip.
- **JsReplace** — `String.prototype.replace` exactly as JavaScript runs it
  with a string replacement, `$` patterns included (see Findings).
- **Ui** — the four `useState` slots and the handlers `handleEdit`,
  `toggleEdit`, `handleCopy` and the copy timer. It also holds the card
  view and the page. Each card's id is `${categoryIndex}-${cmdIndex}` and
  is proved distinct on a page.
- **CatalogFacts** — concrete behaviour on the catalog.
- **Strings**, **Seqs**, **Ids** and **Optional** are support modules:
  ASCII lowering, `includes`, `split`/`join`, `filter`, decimal ids and
  `Option`.

Two behaviours of the code are worth knowing:

- **Edit-view suffix.** The label after the input is `split('>')[1]`, the
  text between the first and second `>`. For "Add Remote" the editor
  therefore shows ` <repository-url` after the input
  (`Ui.EditViewCutsAtSecondToken`).
- **Copy timer.** The timer callback sets `copiedCommand` to `null`
  unconditionally, so an earlier copy's timer clears a later copy's
  indicator (`Ui.CopyTimerClearsAnyIndicator`).

Stored values are keyed by a card's position in the filtered list, not by
the entry. So a value typed under one search can show up in another entry
once the search changes (`Ui.StoredValueFollowsPosition`).

All `.dfy` files form one program for `dafny verify`; there is no
`include`.

## Model

| member | source | states |
|---|---|---|
| Template.RenderCommand | src/App.js:212-214 | An unset or empty stored value leaves the command as it is. So does a command with no token. Otherwise every token of the command's canonical decomposition is replaced by the value. |
| Template.TokenPrefixSpec | src/App.js:213 | The scan finds a `<[^>]+>` match at the start of the text exactly when one exists, and reports its length. |
| Template.TokenPrefixIs | src/App.js:213 | When the text starts with a token of length `n`, the match at the start has length `n`. |
| Template.FirstFromIs | src/App.js:213 | The first `>` from a position is found where it is: the `[^>]+` part of a match stops at the first `>`. |
| Template.NoTokenAtStart | src/App.js:213 | Text that does not start with `<` has no match at its start. |
| Template.Parse | src/App.js:213 | Flattening the decomposition of a command gives the command back. |
| Template.ParseCanonical | src/App.js:213 | The decomposition is canonical: literal characters never begin a match, as leftmost matching requires. |
| Template.ParseUnique | src/App.js:213 | A canonical decomposition is the one the scan produces, so the regex's matches in a command are unique. |
| Template.Substitute | src/App.js:213 | The global scan with the value inserted literally. A command without `<` holds no match and is returned unchanged. |
| Template.SubstituteIsFill | src/App.js:213 | Substitution equals filling the command's decomposition with the value. |
| Template.SubstituteFillsEveryToken | src/App.js:213 | For every canonical decomposition, substitution puts the value in every token slot and keeps every literal character. |
| Template.SubstituteNoToken | src/App.js:213 | A command with no token anywhere is left unchanged. |
| Template.NoTokenWithout | src/App.js:213 | A command without `<`, or without `>`, holds no token. |
| Template.SubstituteLit | src/App.js:213 | A leading character other than `<` is kept. |
| Template.SubstituteToken | src/App.js:213 | A leading token is replaced by the value. |
| Template.SubstituteKeepsPrefix | src/App.js:213 | A leading run without `<` is kept, and the rest is substituted on its own. |
| Template.SubstituteSplit | src/App.js:213 | In `a + t + b` with no `<` in `a` and a token `t`, the result is `a`, then the value, then `b` substituted. |
| Template.SubstituteTwoTokens | src/App.js:213 | With two tokens, `a + t1 + m + t2` becomes `a + v + m + v`: one value fills every placeholder. |
| EditView.EditPrefix | src/App.js:307 | The label before the input has no `<`. It is a prefix of the command, ending at the first `<` or at the end. |
| EditView.EditPrefixIs | src/App.js:307 | For `a + rest`, with no `<` in `a` and `rest` starting with `<`, the label is `a`. |
| EditView.EditSuffix | src/App.js:315 | The label after the input is `undefined` exactly when the command has no `>`, and it never holds a `>`. |
| EditView.EditSuffixBetween | src/App.js:315 | The label is the text between the first `>` and the next `>`, or the end of the command. |
| Strings.Split | src/App.js:307 | `split` on one character gives at least one field, and no field holds the separator. |
| Strings.JoinSplit | src/App.js:307 | Joining the fields of `split(sep)` with `sep` gives the string back. |
| Strings.SplitJoin | src/App.js:315 | Splitting a join of `sep`-free fields gives the fields back. |
| Strings.SplitPrefix | src/App.js:307 | A `sep`-free prefix is glued to the first field. |
| Strings.SplitAfterSep | src/App.js:315 | Text before the first `sep` is the first field, and the rest is split on its own. |
| Strings.SplitNoSep | src/App.js:315 | A string without `sep` splits into one field. |
| Strings.LowerChar | src/App.js:239-241 | An upper-case ASCII letter becomes its lower-case form; any other character is kept. |
| Strings.ToLower | src/App.js:239-241 | Lowering keeps the length and lowers each character. |
| Strings.ToLowerIdempotent | src/App.js:239-241 | Lowering twice is lowering once. |
| Strings.LowerContains | src/App.js:239-241 | A lower-case letter occurs in the lowered text exactly when it, or its upper-case form, occurs in the text. |
| Strings.Includes | src/App.js:239-241 | The scan never finds a needle longer than the text, and finds one the text starts with. |
| Strings.IncludesIff | src/App.js:239-241 | `includes` holds exactly when the needle occurs at some position of the text. |
| Strings.IncludesEmpty | src/App.js:239-241 | Every text includes the empty string. |
| Strings.IncludesChar | src/App.js:239-241 | A one-character needle is included exactly when the character occurs. |
| Seqs.Filter | src/App.js:238-243 | `filter` keeps exactly the elements that satisfy the test, in order, as a subsequence. When all pass, nothing is dropped. |
| Seqs.FilterCounts | src/App.js:238-243 | Each element occurs in the result as often as in the input when it passes the test, and not at all otherwise. |
| Seqs.FilterCongruent | src/App.js:238-243 | Filtering with two tests that agree on every element gives the same result. |
| Search.Matches | src/App.js:238-242 | An entry matches exactly when the lowered term occurs at some position of its lowered name, command or description. |
| Search.FilterItems | src/App.js:238-242 | A category's entries are kept exactly when they match the term, in catalog order. |
| Search.Narrow | src/App.js:236-237 | A narrowed category keeps its title and holds the filtered entries. |
| Search.NarrowAll | src/App.js:236-242 | Every category is narrowed in place, and none is dropped yet. |
| Search.FilterCommands | src/App.js:236-243 | Each shown category is a narrowed one and is non-empty. Every non-empty narrowed category is shown, in catalog order. |
| Search.FilterShowsExactlyMatches | src/App.js:236-243 | Every shown entry matches the term. A catalog entry is shown exactly when it matches. |
| Search.CategoryKeptIff | src/App.js:243 | A category is shown exactly when at least one of its entries matches. |
| Search.EmptyTermShowsAll | src/App.js:236-243 | An empty search shows a catalog without empty categories unchanged. |
| Search.FilterIgnoresTermCase | src/App.js:239-241 | Two terms that lower to the same text show the same page. |
| Search.FilterItemsCons | src/App.js:238-242 | Entries are filtered one at a time from the front. |
| Search.FilterCommandsCons | src/App.js:236-243 | Categories are narrowed and kept or dropped one at a time from the front. |
| Search.MatchesLetter | src/App.js:239-241 | A one-letter term matches exactly when that letter, in either case, occurs in the name, command or description. |
| Ids.DigitChar | src/App.js:273 | A digit value below ten becomes a decimal digit character. |
| Ids.Decimal | src/App.js:273 | An index prints as a non-empty string of decimal digits. |
| Ids.DecimalRoundTrip | src/App.js:273 | Reading the printed digits back gives the index. |
| Ids.CommandId | src/App.js:273 | The id `${k}-${i}` splits at `-` into the decimal texts of `k` and `i`. |
| Ids.CommandIdInjective | src/App.js:273 | Distinct (category, entry) index pairs give distinct ids `${k}-${i}`. |
| Ui.Initial | src/App.js:5-8 | On first render the search is empty, nothing is copied or open, and no value is stored for any id. |
| Ui.FirstRenderCard | src/App.js:5-8 | On first render a card is closed and unmarked, and shows its command with the placeholders as written. |
| Ui.SetSearchTerm | src/App.js:261 | Typing in the search box sets the term and changes nothing else. |
| Ui.HandleEdit | src/App.js:225-230 | The value is stored under the id, every other stored value is kept, and no other slot changes. |
| Ui.ToggleEdit | src/App.js:232-234 | The editor opens on the id unless that id was open, in which case it closes. Nothing else changes. |
| Ui.ToggleEditTwice | src/App.js:232-234 | Toggling twice from "closed" or from "this id open" restores the state. From another open id it ends closed. |
| Ui.StoredValue | src/App.js:212 | The stored value is present exactly when something was typed for the id, and it is that value. |
| Ui.HandleCopy | src/App.js:211-223 | Without a truthy stored value, or without a token, the command is copied as it is. With one, the copy is the command's canonical reading with the value in every token slot; for a value without `$` that is exactly what the as-written `replace` gives. A resolved write marks the id as copied. A rejected write leaves the state unchanged. |
| Ui.CopyTimerFired | src/App.js:219 | The timer clears the copied indicator, whatever it shows, and changes nothing else. |
| Ui.CopyTimerClearsAnyIndicator | src/App.js:218-219 | Every copy arms the same unconditional reset. After copies of two ids the indicator shows the second, and any firing clears it. |
| Ui.ViewCommand | src/App.js:305-323 | The editor is shown exactly when the entry is editable and open. Its labels are `split('<')[0]` and `split('>')[1]` (empty when undefined), so they hold no `<` before and no `>` after. Its input shows the stored value, or nothing, and is empty exactly when no truthy value is stored. A closed card shows the rendered command. |
| Ui.CopyMatchesPlainView | src/App.js:319-321 | A closed card shows exactly the text a copy would write. |
| Ui.EditViewMatchesCopy | src/App.js:305-316 | For a one-token command, the open editor reads the prefix, the value, then the suffix. With a value typed, that is the copied text. |
| Ui.OneTokenEdges | src/App.js:307-315 | The labels of a one-token command `a + t + b` are `a` and `b`. |
| Ui.OneTokenFilled | src/App.js:319-321 | Literal substitution turns a one-token command `a + t + b` into `a + v + b`. |
| Ui.EditViewCutsAtSecondToken | src/App.js:305-316 | For a two-token command, the editor's second label stops before the second token's `>`. It equals the copy only when the value is that cut-off token. |
| Ui.TwoTokenEdges | src/App.js:307-315 | The labels of a two-token command `a + t1 + m + t2` are `a` and `m` followed by `t2` without its `>`. |
| Ui.ViewCard | src/App.js:275-303 | A card shows the entry's name and description under its id. It has an edit toggle exactly when the entry is editable. The toggle shows "close" exactly when the id is open. The check mark shows exactly when the id was copied. |
| Ui.Page | src/App.js:268-273 | The page has one section per shown category, titled and sized like it. Card `i` of section `k` views entry `i` of the `k`-th shown category under id `${k}-${i}`. |
| Ui.PageIdsDistinct | src/App.js:273 | No two cards on a page share an id. |
| Ui.StoredValueFollowsPosition | src/App.js:268-273 | Suppose a search hides the whole first category. A value typed into card `0-0` is then shown, after the search is cleared, in the first entry of the first category. |
| JsReplace.Expand | src/App.js:213 | The replacement template expanded for one match, as GetSubstitution does: `$$` gives `$`, `$&` the matched text, `` $` `` the text before it, `$'` the text after it, and a template without `$` is itself. |
| JsReplace.ExpandLiteral | src/App.js:213 | A replacement without `$` expands to itself. |
| JsReplace.ReplaceAsWritten | src/App.js:213 | The global replace as JavaScript runs it with a string replacement. A command without `<` holds no match and is returned unchanged. |
| JsReplace.ReplaceRestAgrees | src/App.js:213 | With a value without `$`, the as-written replace equals literal substitution, whatever text came before. |
| JsReplace.ReplaceAsWrittenAgrees | src/App.js:213 | With a value without `$`, the as-written copy is the literal substitution. |
| JsReplace.ReplaceRestKeepsRun | src/App.js:213 | As written, a run without `<` is copied through. |
| JsReplace.ReplaceRestToken | src/App.js:213 | As written, a leading token is replaced by the value's expansion for that match, with the text before and after it. |
| JsReplace.ReplaceAsWrittenOneToken | src/App.js:213 | As written, a one-token command `a + t + b` becomes `a`, then the value expanded for the match `t`, then `b`. |
| JsReplace.ReplaceAsWrittenTwoTokens | src/App.js:213 | As written, a two-token command `a + t1 + m + t2` becomes `a`, the value expanded for `t1`, `m`, then the value expanded for `t2`, each with its own surrounding text. |
| JsReplace.ReplaceRestTokenThenRun | src/App.js:213 | As written, a token followed by a `<`-free run becomes the token's expansion, then the run, then the rest replaced. |
| JsReplace.LastToken | src/App.js:213 | As written, a token that ends the text becomes its expansion, with nothing after it. |
| JsReplace.ReplaceAsWrittenTwoTokenCases | src/App.js:213 | As written, a two-token command with a value without `$` shows the value in both slots; with `$&` it is left as it is. |
| JsReplace.DollarAmpersandKeepsToken | src/App.js:213 | With the value `$&`, a one-token command keeps its placeholder as written, whereas literal substitution shows `$&`. The two differ. |
| JsReplace.DollarAmpersandOnCreateBranch | src/App.js:62 | For `git branch <branch-name>` with `$&` typed, the as-written copy is `git branch <branch-name>` and the literal one is `git branch $&`. |
| CatalogFacts.CategoriesNonEmpty | src/App.js:10-208 | Every catalog category holds at least one entry. |
| CatalogFacts.EmptySearchShowsCatalog | src/App.js:236-243 | With an empty search box, the whole catalog is shown unchanged. |
| CatalogFacts.CatalogConsistent | src/App.js:10-208 | Every entry is editable exactly when it has a placeholder label, and exactly when its command holds a `<`. |
| CatalogFacts.FixedEntryIgnoresStored | src/App.js:212-214 | A consistent entry without an edit toggle holds no token, so it always shows and copies its command as written. |
| CatalogFacts.AddRemoteParts | src/App.js:102 | "Add Remote" is `git remote add `, then `<remote-name>`, a space, then `<repository-url>`: two tokens. |
| CatalogFacts.AddRemoteFillsBoth | src/App.js:102 | With a value typed, literal substitution renders "Add Remote" as `git remote add v v`. As written, each placeholder becomes the value's expansion for its own match: `git remote add v v` when `v` holds no `$`, and the unchanged command for `$&`. |
| CatalogFacts.CreateBranchSubstituted | src/App.js:62 | With a value typed, literal substitution renders "Create Branch" as `git branch v`. As written, it is `git branch ` followed by the value's expansion for the match, which is `git branch v` when `v` holds no `$`. |
| CatalogFacts.AddRemoteLiteral | src/App.js:102 | With a value typed, literal substitution renders "Add Remote" as `git remote add v v`. |
| CatalogFacts.AddRemoteAsWritten | src/App.js:102 | As written, "Add Remote" becomes `git remote add `, the value expanded for `<remote-name>`, a space, then the value expanded for `<repository-url>`; that is `git remote add v v` without `$`, and the unchanged command for `$&`. |
| CatalogFacts.CreateBranchLiteral | src/App.js:62 | "Create Branch" is `git branch <branch-name>`, and literal substitution renders it as `git branch v`. |
| CatalogFacts.CreateBranchAsWritten | src/App.js:62 | As written, "Create Branch" becomes `git branch ` followed by the value expanded for `<branch-name>`, which is `git branch v` without `$`. |
| CatalogFacts.GitInitUnchanged | src/App.js:16 | "Initialize Repository" shows `git init` whatever is stored for it. |
| CatalogFacts.EmptyBracketsKept | src/App.js:213 | `<>` is not a placeholder, because `[^>]+` needs a character, so `git add <>` is kept. |

## Left out

- Rendering: JSX markup, Tailwind classes (including `tailwind.config.js`) and the icons. Only what a card shows is modelled.
- The input's `placeholder` attribute (App.js:311), which is display text only.
- React mechanics: hooks, re-rendering, `key` props and batched updates. State changes are explicit function applications.
- `navigator.clipboard.writeText`. Its outcome is the `clipboardAccepts` parameter of `Ui.HandleCopy`. A rejected write only logs with `console.error`, which is left out.
- `setTimeout`'s 2000 ms delay. The timer's firing is the explicit event `Ui.CopyTimerFired`, and time itself is not modelled.
- Strings.ToLower: lowers only ASCII `A`–`Z`, not full Unicode `toLowerCase`. The catalog is ASCII, but a typed search term need not be.
- Strings are sequences of characters, not UTF-16 code units. Neither the catalog nor any operation here distinguishes the two.
- `JsReplace` models the `$$`, `$&`, `` $` `` and `$'` patterns. With no capture groups in the regex, `$1`..`$99` and `$<` are copied literally, as JavaScript does.
- Template.RenderCommand: inserts the stored value literally. App.js:213 and App.js:320 pass it to `replace` as a template, which expands `$$`, `$&`, `` $` `` and `$'` (see Findings). The two agree for every value without `$` (`JsReplace.ReplaceAsWrittenAgrees`).
- Ui.HandleCopy: copies the literal substitution. For a stored value containing `$$`, `$&`, `` $` `` or `$'` the component copies the expansion instead; the contract states the as-written text only for values without `$`.
- Ui.ViewCommand: a closed card shows the literal substitution, and so differs from App.js:319-321 for values containing `$$`, `$&`, `` $` `` or `$'`.
- Ui.EditViewMatchesCopy: the copy `a + v + b` is the literal substitution; the component copies it only for values without `$` patterns.
- Ui.EditViewCutsAtSecondToken: the copy `a + v + m + v` is the literal substitution; the component copies it only for values without `$` patterns.
- CatalogFacts: the open editor for "Add Remote" is stated for any command of its shape (`Ui.EditViewCutsAtSecondToken`) rather than evaluated on the catalog's string.

## Findings

| source | as written | input that shows it | evidently intended | confidence | as-written member | corrected member |
|---|---|---|---|---|---|---|
| src/App.js:213 | `command.replace(/<[^>]+>/g, editableValues[id])` passes the typed text as a replacement template. Its `$$`, `$&`, `` $` `` and `$'` are expanded, here and in the card at line 320. | "Create Branch" (`git branch <branch-name>`) with `$&` typed: the copy is `git branch <branch-name>` | the typed text inserted literally: `git branch $&` | not executed | JsReplace.DollarAmpersandOnCreateBranch | Template.SubstituteSplit |

`JsReplace.ReplaceAsWritten` is the code as written. `Template.Substitute`
is the literal substitution that the rest of the model uses.
`JsReplace.ReplaceAsWrittenAgrees` proves that the two agree on every value
without `$`.
