# jqpick tree and navigation core, modelled in Dafny

jqpick is a terminal JSON explorer. It decodes a document into a tree of
nodes and lists the nodes whose ancestors are all expanded. The user moves
a cursor over that listing, collapses and expands containers, searches, and
selects a node to get its jq path expression (`.users[0].name`). This
project models that core and proves properties of it:

- building the node tree from a decoded value;
- the per-node views: display name, value preview, search match and indent;
- the pre-order listing of visible nodes;
- the jq path of a node;
- the explorer state and what each key and mouse event does to it;
- the filter of the listing by a search term;
- the viewport arithmetic of the tree view;
- the splitting of text around search hits;
- the wrapping of long string values.

Modules, one per file:

- `Strings` (strings.dfy): the part of Go's `strings` and `strconv` the
  core uses, that is ASCII `ToLower`, `Index`, `Contains`, `HasPrefix`,
  `Repeat`, `Join`, `TrimLeft` and `Itoa`. Go strings are byte sequences;
  here one `char` stands for one byte.
- `JsonValue` (json.dfy): the decoded document as a closed datatype. A
  number keeps the text `%v` prints for it.
- `Tree` (tree.dfy): `buildJSONTree`, `getDisplayName`, `getValuePreview`,
  `matchesSearch` and the change of one `Expanded` flag. A node is a value,
  and it is named by its index path from the root. Its parent is the path
  without the last step, which replaces the `Parent` pointer.
- `Subsequences` (subseq.dfy): order-preserving subsequences.
- `Visibility` (visible.dfy): `getAllVisibleNodes`, as a recursive method
  with an accumulator. It is proved against a pre-order function.
- `JqPath` (query.dfy): `buildJqQuery`, as the walk up and the joining
  loop. It is proved against a function, which is then related to the path
  grammar.
- `Search` (search.dfy): the filter loop of `updateFilteredNodes`, and
  `highlightMatch` as a loop that emits plain and hit segments. Styling is
  reduced to the segment tag.
- `Render` (render.dfy): the viewport of `renderTreeView`, the click index,
  `getIndent` and `wrapLine`.
- `Navigation` (nav.dfy): the `model` struct as a class. `Update`'s key and
  mouse branches and `updateFilteredNodes` are methods that change its
  fields.
- `Scenarios` (scenarios.dfy): the documents of tree_test.go, with the
  queries and search results the tests expect.

## Model

| member | source | states |
|---|---|---|
| Strings.IndexSpec | ui.go:549-553 | `strings.Index` gives the first position where the term occurs, and -1 exactly when it occurs nowhere |
| Strings.ContainsIff | tree.go:99-110 | `strings.Contains` holds exactly when there is an occurrence at some position |
| Strings.LowerIdempotent | tree.go:96 | lower-casing twice is lower-casing once |
| Strings.NatToStringRoundTrip | tree.go:28 | reading back the decimal digits `strconv.Itoa` writes gives the number |
| Strings.NatToStringInjective | tree.go:28 | different indices get different decimal keys |
| Strings.TrimLeftBlanks | ui.go:633 | `TrimLeft(s, " ")` is a suffix of `s`; it does not start with a blank; only blanks were dropped |
| Strings.RepeatBlank | ui.go:607 | repeating blanks gives only blanks |
| JsonValue.KindNameInjective | tree.go:20-38 | the six `Type` names are pairwise different |
| Tree.BuildJSONTree | tree.go:9-42 | building node then children in loops gives the tree `Build` describes |
| Tree.BuildNode | tree.go:10-16 | a built node has the given key and value, starts expanded, and its kind is the value's kind |
| Tree.BuildAllExpanded | tree.go:14 | every node of a built tree, at any depth, is expanded |
| Tree.BuildArray | tree.go:25-30 | an array gives one child per element in index order; child i is element i under key `Itoa(i)`; the keys read back as i and are distinct |
| Tree.BuildObject | tree.go:19-24 | an object gives one child per member; the children's keys are exactly the member keys, each once |
| Tree.BuildScalar | tree.go:31-39 | a string, number, boolean or null gives a node without children |
| Tree.BuildEmptyContainer | tree.go:18-30 | an empty object or array has no children but keeps its container kind |
| Tree.DisplayName | tree.go:44-49 | under an array parent the name is the key between `[` and `]`; the root and a child of an object show the bare key; so the name is two bytes longer than the key exactly when the parent is an array |
| Tree.PreviewString | tree.go:53-58 | a string of at most 50 bytes is shown whole in quotes; a longer string shows its first 47 bytes, then `..."`, 52 bytes in all |
| Tree.PreviewCount | tree.go:65-68 | a container preview is `{...} (` or `[...] (`, then the child count in decimal, then ` keys)` or ` items)` |
| Tree.MatchesSearchIff | tree.go:91-114 | a node matches exactly when the term is empty, or the lower-cased term occurs in the lower-cased key, preview or kind name |
| Tree.MatchesIgnoreTermCase | tree.go:96 | the match ignores the letter case of the term |
| Tree.MatchesOwnKind | tree.go:108-111 | a term equal to the kind name, in any case, matches |
| Tree.MatchesKeyOccurrence | tree.go:98-101 | a term found in the key, ignoring case, matches |
| Tree.NoMatchWhenAbsent | tree.go:91-114 | a non-empty term found in none of key, preview and kind name does not match |
| Tree.SetExpanded | ui.go:210 | after the change, the node at the path has the new flag |
| Tree.SetExpandedOnlyFlag | ui.go:205-220 | a flag change keeps every key, value and child count, and every other node's flag |
| Tree.SetExpandedSameShape | ui.go:205-220 | a flag change keeps the shape of the tree |
| Tree.SameShapeAt | ui.go:205-220 | trees of the same shape have the same paths, and the same shape below each one |
| Tree.SetExpandedUnchanged | ui.go:218 | setting a flag to its current value changes nothing |
| Tree.SetExpandedTwice | ui.go:210-218 | the second of two changes of the same flag decides it |
| Tree.ToggleTwice | ui.go:244 | toggling the same flag twice restores the tree |
| Visibility.Preorder | tree.go:78-85 | the listing starts with the node itself |
| Visibility.GetAllVisibleNodes | tree.go:74-89 | the collected list is the pruned pre-order `Visible` |
| Visibility.CollectNodes | tree.go:78-85 | the recursive closure appends the pruned pre-order of a subtree to what was collected |
| Visibility.VisibleIff | tree.go:78-85 | a path is listed exactly when all its proper ancestors are expanded (`Shown`) |
| Visibility.FullPreorderIff | tree.go:78-85 | without pruning, every path that leads to a node is listed |
| Visibility.VisibleValid | tree.go:74-89 | every listed path leads to a node |
| Visibility.ShownAncestorExpanded | tree.go:80 | a listed node's ancestors are all expanded |
| Visibility.CollapsedHidesDescendants | tree.go:80-84 | a collapsed node's descendants are not listed |
| Visibility.VisibleSubseqOfPreorder | tree.go:74-89 | the listing is an order-preserving subsequence of the full pre-order |
| Visibility.PrefixStable | ui.go:205-246 | changing the flag of the i-th listed node keeps the listing up to and including position i |
| Visibility.CollapseAndRestore | ui.go:205-246 | collapsing the i-th listed node hides its descendants and keeps it at i; restoring its flag restores the listing |
| JqPath.BuildJqQuery | tree.go:116-150 | the walk up the parents and the joining loop give `JqQuery`: `.` for the root, else the joined parts |
| JqPath.JoinParts | tree.go:134-148 | the joining loop appends a bracketed part as it is and any other part after a dot |
| JqPath.WalkStep | tree.go:125-132 | one step of the walk up puts the step's part in front of the parts collected |
| JqPath.QueryOfChild | tree.go:125-147 | a child's query is its parent's query (nothing for the root) followed by the child's part, after a dot unless bracketed |
| JqPath.QueryOfField | tree.go:129-145 | the step into an object member adds `.key` |
| JqPath.QueryOfElement | tree.go:126-139 | the step into an array element adds `[key]` |
| JqPath.AssembleIsPathExpr | tree.go:116-150 | where no object key starts with `[`, the joined parts are the root-to-node concatenation of `[k]` for array steps and `.k` for object steps |
| JqPath.QueryIsPathExpr | tree.go:116-150 | so every non-root query is that concatenation |
| JqPath.SegmentIsDisplayName | tree.go:44-49 | each segment of the path grammar is the node's display name, after a dot unless the parent is an array |
| JqPath.BracketKeyUnderObject | tree.go:137-139 | an object key that starts with `[` is written without a dot, like an array step |
| JqPath.QueryDependsOnSteps | tree.go:116-150 | two trees that agree on the kinds of a node's ancestors and the keys along its path give it the same query |
| JqPath.QueryIgnoresFlags | tree.go:116-150 | trees that differ only in `Expanded` flags give every node the same query |
| JqPath.QueryIgnoresSetExpanded | tree.go:116-150 | a flag change leaves every query as it was |
| JqPath.RootArrayChildAsWritten | tree.go:135-147 | as written, a child of a root-level array gets `[k]`, which does not start with a dot |
| JqPath.BuiltRootArrayChildAsWritten | tree.go:125-147 | so for a built root array, element k gets `[k]` |
| JqPath.JqQueryIntended | tree_test.go:111-118 | the corrected query always starts with a dot |
| JqPath.PathExprStart | tree.go:126-130 | the path grammar starts with `[` under a root array and with `.` otherwise |
| JqPath.IntendedIsPathExpr | tree_test.go:35-64 | the corrected query is the path grammar, with a dot in front under a root array (`.[0].name`) |
| JqPath.RootArrayChildIntended | tree_test.go:111-113 | the corrected query of a root array's child is `.[k]` |
| JqPath.BuiltRootArrayChildIntended | tree_test.go:111-123 | so element k of a built root array gets `.[k]` |
| JqPath.IntendedKeepsDottedQueries | tree.go:116-150 | where the as-written query starts with a dot, the correction leaves it alone |
| JqPath.BuildJqQueryCorrected | tree.go:116-150 | `buildJqQuery` followed by the correction computes `JqQueryIntended` |
| JqPath.IntendedIgnoresSetExpanded | tree.go:116-150 | flag changes leave the corrected query as it was |
| Search.FilterMatching | ui.go:646-653 | the filter loop keeps, in order, the nodes that match the term |
| Search.FilterMembers | ui.go:649-653 | a path is kept exactly when it is in the input and its node matches |
| Search.FilterSubseq | ui.go:649-653 | the kept paths are an order-preserving subsequence of the input |
| Search.FilterEmptyTerm | tree.go:92-94 | the empty term keeps everything |
| Search.NextHitSpec | ui.go:569-574 | the next hit from a position is an occurrence with none before it; -1 means none at or after the position |
| Search.NextHitIsIndex | ui.go:569-574 | the next hit is `lastEnd + Index(lower[lastEnd:], term)`, or -1 |
| Search.IndexFrom | ui.go:549-574 | the search from a position computes the next hit |
| Search.HighlightMatch | ui.go:542-583 | the loop emits exactly the segments `Highlight` describes |
| Search.HighlightSegmentation | ui.go:542-583 | the segments join back to the text; each hit equals the term ignoring case; no hit starts inside a plain segment; the result is one plain segment exactly when the term is empty or absent |
| Search.HighlightHits | ui.go:555-580 | when there is a hit, the segments join to the text, alternate well and are leftmost |
| Search.HighlightNone | ui.go:543-553 | an empty term, or no hit, gives the text as one plain segment |
| Search.HighlightHasHit | ui.go:551-565 | when the term occurs, at least one hit is emitted |
| Search.ContainsIffHit | ui.go:549-551 | the loop starts exactly when the text contains the term |
| Render.ViewHeight | ui.go:413-416 | the view height is the available height less one when that is at least 1, and 10 otherwise |
| Render.Viewport | ui.go:418-433 | a short listing is shown whole; a long one from `max(0, cursor-vh+1)`; a cursor in range lies in `[start, end)` and the window holds `min(n, vh)` rows |
| Render.ClickIndex | ui.go:283-290 | the clicked index is clamped into `[0, n)`, and is `start + rel - 1` when that is in range |
| Render.GetIndent | ui.go:662-670 | the indent is two blanks per level of depth, blanks only |
| Render.LastBlank | ui.go:625-628 | the backward scan stops at the last blank at or before the width, or at 0 |
| Render.BreakPoint | ui.go:624-631 | the break is in `(0, width]`; below the width it is on a blank; no blank lies after it up to the width |
| Render.FindBreak | ui.go:624-631 | the scan loop computes the break point |
| Render.ChunksBounded | ui.go:620-633 | every emitted chunk is non-empty and at most the available width long |
| Render.ChunksKeepText | ui.go:613-635 | the chunks keep every non-blank character of the value, in order |
| Render.NonBlanksConcat | ui.go:632-633 | dropping blanks distributes over concatenation |
| Render.WrapValue | ui.go:609-637 | the wrap loop writes the prefix, then the chunks with a newline and the wrap indent between each two |
| Render.WrapLine | ui.go:585-638 | the line is unchanged when it fits, is not a long string, leaves under 20 columns, or does not contain the value; otherwise it is the prefix followed by the wrapped chunks |
| Navigation.QuitKeys | ui.go:111-113 | only q and ctrl+c quit; `space` toggles; esc does nothing outside search mode |
| Navigation.DropLast | ui.go:152-154 | backspace drops the last byte of a non-empty term and leaves an empty one alone |
| Navigation.PageSize | ui.go:187-190 | the page size is height/2, truncated, or 10 when that is below 1 |
| Navigation.AllVisibleValid | tree.go:74-89 | every listed path leads to a node |
| Navigation.MatchingIff | ui.go:646-653 | a path is filtered in exactly when it is listed and its node matches |
| Navigation.MatchingOrder | ui.go:649-653 | the filtered paths are an order-preserving subsequence of the listing, so there are at most as many |
| Navigation.MatchingEmpty | ui.go:641-643 | with an empty term, the filter is the listing |
| Navigation.AfterFilterCursor | ui.go:656-659 | after filtering, the cursor never grows nor goes negative; it lies among the matches when there are any; an empty term keeps it |
| Navigation.FlagAtKeepsCursorNode | ui.go:205-220 | a flag key keeps the listing up to the cursor, so the cursor stays on its node |
| Navigation.ToggleTwiceRestores | ui.go:239-246 | space twice on the same row restores the tree |
| Navigation.Model.constructor | main.go:83-90 | the start state holds the built tree, cursor 0, no selection, no search |
| Navigation.Model.MoveUp | ui.go:177-180 | up decrements the cursor only when it is above 0; nothing else changes |
| Navigation.Model.MoveDown | ui.go:181-185 | down increments the cursor only below the last visible row; a cursor in range stays in range |
| Navigation.Model.PageUp | ui.go:186-194 | page up moves back a page and clamps at 0 |
| Navigation.Model.PageDown | ui.go:195-204 | page down moves on a page and clamps at the last visible row |
| Navigation.Model.SetFlagAt | ui.go:206-211 | the node listed at the index gets its new flag when it is a container; nothing else changes |
| Navigation.Model.ChangeFlag | ui.go:205-220 | left, right and space change the flag of the node under the cursor; the listing up to the cursor is kept |
| Navigation.Model.SelectRow | ui.go:294-297 | the listed node becomes the selection and the query panel gets its `buildJqQuery` result |
| Navigation.Model.Select | ui.go:221-226 | enter selects the node under the cursor and shows its `buildJqQuery` result when the cursor is on a row, and otherwise changes nothing |
| Navigation.Model.Copy | ui.go:227-232 | y returns the selected node's `buildJqQuery` result, which the panel already shows, or nothing without a selection; the state is unchanged |
| Navigation.Model.EnterSearch | ui.go:233-234 | `/` enters search mode |
| Navigation.Model.ToggleHelp | ui.go:235-236 | `?` flips the help screen |
| Navigation.Model.ToggleWrap | ui.go:237-238 | `w` flips value wrapping |
| Navigation.Model.Resize | ui.go:317-319 | a window size message stores the height and width |
| Navigation.Model.UpdateFilteredNodes | ui.go:640-660 | the new state is `AfterFilter` of the old: the listing for an empty term, else the matches with the cursor clamped |
| Navigation.Model.SearchKey | ui.go:145-171 | esc clears and leaves, backspace erases, enter leaves and keeps the term, up and down move within the matches, one byte appends; other keys change nothing |
| Navigation.Model.CancelSearch | ui.go:147-150 | esc clears the term, leaves search mode and refilters |
| Navigation.Model.EraseChar | ui.go:151-155 | backspace drops the term's last byte and refilters |
| Navigation.Model.AppendChar | ui.go:165-169 | a one-byte key is appended to the term and the listing refiltered |
| Navigation.Model.HandleKey | ui.go:141-247 | in search mode each key has the effect `SearchKey` states; otherwise each command has its own new state: q and ctrl+c quit and change nothing, the cursor keys move as `MoveUp`, `MoveDown`, `PageUp` and `PageDown` do, left, right and space change the cursor row's flag, enter selects, y copies and nothing else does, `/`, `?` and `w` set their flag, an unbound key changes nothing; a cursor in range stays in range |
| Navigation.Model.MouseTarget | ui.go:250-290 | the event hits the listed row `Clicked(y)` exactly when it is on a tree row below the header |
| Navigation.Model.Mouse | ui.go:249-315 | a left click moves the cursor to the row and selects it, with its `buildJqQuery` result in the panel; a right click toggles it; the wheel moves like up and down; anything else changes nothing |
| Scenarios.RootQuery | tree_test.go:36-38 | the root's query is `.` |
| Scenarios.UsersQuery | tree_test.go:41-43 | `.users` |
| Scenarios.FirstUserQuery | tree_test.go:46-48 | `.users[0]` |
| Scenarios.FirstUserNameQuery | tree_test.go:51-53 | `.users[0].name` |
| Scenarios.SettingsQuery | tree_test.go:56-58 | `.settings` |
| Scenarios.ThemeQuery | tree_test.go:61-63 | `.settings.theme` |
| Scenarios.ArrayFirstQuery | tree_test.go:111-113 | as written `[0]`; corrected `.[0]`, as the test expects |
| Scenarios.ArraySecondQuery | tree_test.go:121-123 | as written `[1]`; corrected `.[1]` |
| Scenarios.ArrayFirstNameQuery | tree_test.go:116-118 | as written `[0].name` |
| Scenarios.ArrayFirstNameIntended | tree_test.go:116-118 | corrected `.[0].name`, as the test expects |
| Scenarios.SearchDocMatches | tree_test.go:165-188 | `users` and `array` match the users node, `john` matches the name node, and `nonexistent` does not match the users node |
| Scenarios.UsersNodeMatches | tree_test.go:166-181 | an array node keyed `users` matches `users` and `array` |
| Scenarios.NameNodeMatches | tree_test.go:172-175 | a node holding `John` matches `john` |
| Scenarios.NotFoundInUsersNode | tree_test.go:184-187 | `nonexistent` matches nothing of the users node |

## Left out

- Rendering is not modelled: lipgloss styles, the title, help and query
  sections, `View`, `renderNode` and `renderHelp`. It is presentation
  only. Styling in `highlightMatch` is reduced to tagging a segment as
  plain or hit.
- The OSC52 clipboard write to stderr is not modelled. `Copy` returns the
  text that would be written.
- `main`'s argument parsing, stdin detection and reading, `json.Unmarshal`
  and the bubbletea program loop are I/O and are left out. The model
  starts from the decoded value.
- A number's `%v` text is an opaque string carried by the value, because
  it is float formatting.
- Object member order: children follow the order of the member sequence.
  Go's map iteration order is unspecified, so nothing is proved about that
  order beyond the set of keys.
- Lower-casing is ASCII only, and one `char` stands for one byte. Go's
  Unicode `ToLower` and multi-byte characters are not modelled.
- Node pointers become index paths. The model does not capture aliasing
  between the `selected` and `filtered` pointers and the tree, except
  through the facts that a flag change keeps every path and every query.
- The `viewport` and `filename` fields of `model` are not modelled: the
  core never reads the first, and the second is only displayed.
- Navigation.KeyCommand: each key binding is matched by its key name; `space` is the literal string the code compares against.
- Navigation.Model.HandleKey: outside search mode, cursor keys act on the full listing even while a search term is kept; this is what the code does.
- Navigation.Model.Mouse: a right click that collapses a node above the
  cursor can leave the cursor past the end of the shorter listing. The code
  does not clamp it, so the contract promises no cursor bound after a right
  click.
- Render.WrapLine: `prefixLen` is a natural number, since the caller
  computes it from lengths.
- Search.IndexFrom, Render.FindBreak, Render.WrapValue, JqPath.JoinParts, Navigation.Model.SetFlagAt, Navigation.Model.SelectRow, Navigation.Model.MouseTarget, Navigation.Model.CancelSearch, Navigation.Model.EraseChar and Navigation.Model.AppendChar are inner loops or branches of the Go functions, given their own methods; their behaviour is that of the enclosing Go code.

## Findings

| source | as written | input that shows it | evidently intended | confidence | as-written member | corrected member |
|---|---|---|---|---|---|---|
| tree.go:135-147 | a first part in brackets is appended with no dot, so a child of a root-level array gets `[0]` and its member `[0].name` | the document `[{"name": "John"}, {"name": "Jane"}]`, first element, and the member `name` of that element | `.[0]` and `.[0].name`, as tree_test.go:111-118 expects | not executed | JqPath.RootArrayChildAsWritten | JqPath.IntendedIsPathExpr |

The as-written behaviour is also shown on the test document by
`JqPath.BuiltRootArrayChildAsWritten` and `Scenarios.ArrayFirstNameQuery`.
The correction puts a dot in front of a query that does not start with one
(`JqPath.JqQueryIntended`, computed by `JqPath.BuildJqQueryCorrected`).
`JqPath.BuiltRootArrayChildIntended` and `Scenarios.ArrayFirstNameIntended`
prove the expected queries for the corrected version. The navigation state
(selection, query panel and copy) keeps the query as written, as the
program stores and copies it, so for a root-level array's element it holds
`[0]`; the corrected query is defined and proved in `JqPath` alone.
