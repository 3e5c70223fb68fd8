# Family tree: tree builder, table rules, CSV export and focus view

This project is a Dafny model of the logic at the centre of a small family-tree web site.
The server keeps a `persons` table, in which each person names a father through
`father_id`, and a `person_spouses` table. The browser draws the resulting tree with d3
and lets a visitor focus on a person or search by name.

The model covers two pieces of logic.

- **Server side** (`server.js`):
  - `buildTree` turns the `persons` rows, read in ascending id order, into a tree of wrapper nodes;
  - `normalizeMulti` and `setSpouseNames` replace one person's spouse list;
  - the person-delete route refuses to delete a person who still has children;
  - `escapeCsv` and the support-message CSV export.
- **Browser side** (`public/app.js`):
  - `getAncestors`, `getChildren` and `focusOnNode`;
  - `resetFocus`;
  - the click handlers on a card, on the canvas and on the reset button;
  - the search box's `oninput`;
  - the fallback photo.

Files:

- `wrappers.dfy`: `Option`.
- `js_value.dfy`: the values a request body can deliver for a form field, JavaScript truthiness, and `String(x)` (with the decimal text of an integer).
- `js_text.dfy`: the JavaScript string operations the code relies on: `trim`, `toLowerCase` and `includes`.
- `persons.dfy`: a `persons` row and the table-wide predicates. These are unique ids, ascending ids and "every `father_id` resolves".
- `tree_builder.dfy`: `buildTree` as a method. A `map` plays the role of the JavaScript `Map`. A specification function gives each node's children. Lemmas cover lists, roots and reachability.
- `family_db.dfy`: a `Database` class whose fields are the two tables. Its methods are `setSpouseNames` and the delete route. Lemmas state the table invariants.
- `csv_export.dfy`: `escapeCsv`, line and file assembly, and a reader that inverts the export.
- `hierarchy.dfy`: the d3 hierarchy as a list of nodes in `descendants()` order. Each node names its parent by position. The lemmas need only that every parent comes before its children, which the breadth-first `descendants()` order satisfies. The module defines ancestors, children, the visible set of a focus, and the photo fallback.
- `focus_view.dfy`: the presentation state. It has a value model (`View`, with a `Step` function per input) and a `TreeView` class over arrays whose methods follow the handlers step by step. Worked examples close the file.

Notes on how the model reads the source:

- **Falsy `father_id`.** The column holds NULL or an integer, so `if (r.father_id)` is false for NULL and for `0`. `HasFather` models both.
- **Form values.** `spouse_names` can arrive as any JSON value (`express.json()`) or as a string or array of strings (`express.urlencoded`). `normalizeMulti` and `String(s || "")` are modelled on those values: falsy items become the empty string and are dropped, numbers become their decimal text, objects become `"[object Object]"`.
- **Iteration order.** The `Map` is iterated in insertion order. The ids are unique (primary key), so that order is the row order.
- **Child lists.** `parent.children.push(r)` pushes the wrapper object that `byId` holds under the child's id. The model's child lists therefore hold child ids.
- **Spouse table.** Its schema is not part of this model (db.js only shows `persons`). `person_spouses` is modelled as a sequence of `(person_id, spouse_name, ord)` rows in `id` order. Inserts append.
- **Clicks on faded cards.** A card whose `pointer-events` is `"none"` does not receive the click. The click reaches the canvas, whose handler calls `resetFocus`. `Step` on a `CardClick` models this.
- **Link order.** `root.links()` lists one link per non-root node, in `descendants()` order. Link `k` therefore joins node `k + 1` to its parent.

## Model

| member | source | states |
|---|---|---|
| TreeBuilder.ChildIds | server.js:103-106 | a children list is never longer than the table |
| TreeBuilder.FirstRoot | server.js:107-109 | the root candidate is a row with a falsy `father_id`, and every earlier row has a truthy one; with no such row there is no root |
| TreeBuilder.BuildTree | server.js:99-112 | the index has exactly the row ids as keys; each node is its row unchanged plus the list of that row's resolving children in input order; the root is the node of the first fatherless row, or none |
| TreeBuilder.IndexRows | server.js:100 | the initial index maps every row id to its row with an empty children list |
| TreeBuilder.AttachStep | server.js:104-106 | processing row `i` extends every node's children list to cover rows up to `i` |
| TreeBuilder.PrefixStep | server.js:103-109 | one more row extends the children lists and the root choice by that row alone |
| TreeBuilder.ListsIdSnoc | server.js:104-106 | a row is listed under a parent after one more row exactly when it was listed before or is that row with that father |
| TreeBuilder.ChildIdsCount | server.js:104-106 | a row id occurs in a parent's list exactly once if that row names the parent, and otherwise not at all |
| TreeBuilder.NotListedBeforeLast | server.js:103-106 | the last row is not listed by the earlier rows (ids are unique) |
| TreeBuilder.ResolvingRowInExactlyOneList | server.js:104-106 | a row whose `father_id` resolves is in its father's list exactly once and in no other list |
| TreeBuilder.OrphanInNoList | server.js:104-106 | a row whose `father_id` names no row is in no children list |
| TreeBuilder.ChildIdsAreIds | server.js:104-106 | every listed child is a row of the table |
| TreeBuilder.ChildIdsAscending | server.js:103-106 | with rows in ascending id order, every children list is strictly ascending |
| TreeBuilder.RootIsLowestFatherlessId | server.js:107-109 | with ascending ids the root is the fatherless row of lowest id; there is none iff every row has a father |
| TreeBuilder.RowIndex | server.js:105 | `byId.get(id)`: finds the row with that id, or reports that no row has it |
| TreeBuilder.FatherOf | server.js:104-106 | a row hangs under a father only if that row's `father_id` is truthy and names an existing row; an id no row has hangs under nothing |
| Persons.HasFatherIsTruthy | server.js:104 | the father test is exactly JavaScript truthiness of `father_id`, with NULL read as `null` |
| TreeBuilder.UpAdd | server.js:104-106 | walking up `a` steps and then `b` steps is walking up `a + b` steps |
| TreeBuilder.UpThrough | server.js:104-106 | a walk that passes through `y` continues as the walk from `y` |
| TreeBuilder.UpStopped | server.js:104-106 | a father chain that has stopped stays stopped |
| TreeBuilder.ListedChildHasFather | server.js:104-106 | a listed child's father is the owner of the list |
| TreeBuilder.FatherListsChild | server.js:104-106 | a row is listed by its resolving father |
| TreeBuilder.PathIsFatherChain | server.js:104-106 | a path down through the children lists is, read backwards, the father chain of its last row |
| TreeBuilder.ExtendPath | server.js:104-106 | a path followed by a child of its end is a path |
| TreeBuilder.FatherStep | server.js:104-106 | the first step of a father chain lands on a row that lists the start |
| TreeBuilder.FatherChainIsPath | server.js:104-106 | a father chain from `x` up to `r` is, read backwards, a path from `r` down to `x` |
| TreeBuilder.ReachableIff | server.js:103-111 | a row is reachable from a node through the children lists iff that node lies on its father chain |
| TreeBuilder.FatherlessStops | server.js:104-108 | the father chain stops at a row whose `father_id` is falsy |
| TreeBuilder.OrphanStops | server.js:105-106 | the father chain stops at a row whose `father_id` names no row |
| TreeBuilder.ReachableChainEnds | server.js:103-111 | every row reachable from the root has a father chain that ends exactly at the root |
| TreeBuilder.StopIsUnique | server.js:104-106 | a father chain stops at one place only |
| TreeBuilder.CycleNeverStops | server.js:104-106 | the father chain of a row on a cycle never stops |
| TreeBuilder.CycleUnreachable | server.js:103-111 | a row on a `father_id` cycle is not reachable from the root |
| TreeBuilder.OrphanSubtreeUnreachable | server.js:104-106 | an orphan and everything below it are unreachable from the root: orphans are dropped, not reparented |
| FamilyDb.NormalizeMultiEmptyIff | server.js:63-67 | the form yields no items exactly when the field is falsy or an empty array; a truthy non-array value becomes a one-item list; an array is kept element for element |
| FamilyDb.ItemText | server.js:84 | an item's text is empty exactly when the item is falsy |
| FamilyDb.Texts | server.js:84 | one text per item |
| FamilyDb.CleanNames | server.js:84-85 | the cleaned list is no longer than the input, and every name in it is trimmed and non-blank |
| FamilyDb.CleanSpouseNames | server.js:83-85 | a falsy field stores no name; a string field stores its trim, or nothing when that is blank; every stored name is trimmed and non-blank |
| FamilyDb.CleanNamesAppend | server.js:83-85 | cleaning works name by name and keeps the order |
| FamilyDb.CleanNamesKeepsCleanList | server.js:84-85 | a list of trimmed, non-blank names is its own cleaning |
| FamilyDb.CleanNamesDropsBlank | server.js:84-85 | texts that are all white space give no name |
| FamilyDb.FalsyItemsStoreNothing | server.js:83-85 | items that are `null`, `undefined`, `false`, `0`, `""` or blank strings store no name |
| FamilyDb.NonStringNames | server.js:84 | a number is stored as its decimal text, `true` as `"true"`, an object as `"[object Object]"` |
| FamilyDb.ResubmittedNamesKept | server.js:83-85 | clean names sent again as strings are stored unchanged |
| FamilyDb.AfterSetSpouses | server.js:80-96 | other persons' rows are exactly kept; every row of the person carries a clean name and an ordinal between 1 and the number of names |
| FamilyDb.RowsOf | server.js:70-78 | one person's rows, in table order, all belonging to that person |
| FamilyDb.SpouseNames | server.js:311-312 | the names the edit form shows: one per row of the person |
| FamilyDb.WithoutPerson | server.js:81 | the delete removes exactly the rows of that person |
| FamilyDb.NumberedInit | server.js:87-95 | the insertion loop's rows, split before the last name |
| FamilyDb.NumberedSnoc | server.js:87-95 | one more loop step appends one row with the next ordinal |
| FamilyDb.RowsOfAppend | server.js:70-78 | a person's rows in a concatenated table are their rows in each part |
| FamilyDb.RowsOfWithoutPerson | server.js:81 | after the delete the person has no rows and everyone else's rows are unchanged |
| FamilyDb.RowsOfNumbered | server.js:87-95 | the inserted rows all belong to the person |
| FamilyDb.SetSpousesEffect | server.js:80-96 | afterwards the person's names are exactly the cleaned input in order, with ordinals 1..n, and every other person's rows are unchanged |
| FamilyDb.RowsAfterSetSpouses | server.js:80-96 | afterwards a person's rows are the freshly numbered names for that person, and unchanged for anyone else |
| FamilyDb.SetSpousesKeepsInvariants | server.js:80-96 | consecutive ordinals per person and clean names are both preserved |
| FamilyDb.SetSpousesKeepsOrds | server.js:87-95 | every person's ordinals stay 1, 2, …, n in table order |
| FamilyDb.SetSpousesKeepsNamesClean | server.js:83-85 | every stored name stays trimmed and non-blank |
| FamilyDb.StoredNamesClean | server.js:311-312 | the names the edit form shows are all clean |
| FamilyDb.RenumberIsIdentity | server.js:87-95 | renumbering a person's stored names reproduces that person's rows |
| FamilyDb.ResubmitKeepsSpouses | server.js:306-328 | submitting the edit form with the names it showed leaves every person's spouse rows as they were |
| FamilyDb.HasChildIffListed | server.js:335 | for a non-zero id, the delete guard refuses exactly the persons whose children list in the built tree is non-empty |
| FamilyDb.WithoutId | server.js:339 | `DELETE FROM persons WHERE id = ?` removes exactly the rows with that id |
| FamilyDb.IdOfMember | server.js:339 | a row's id is among the table's ids |
| FamilyDb.DeleteKeepsFathersResolve | server.js:332-341 | with the guard passed, the delete keeps every non-NULL `father_id` resolving |
| FamilyDb.DeleteKeepsIdOrder | server.js:339 | the delete keeps the ids ascending |
| FamilyDb.NoRowDroppedWhileFathersResolve | server.js:104-106 | while every `father_id` resolves, every row with a father is in its father's children list exactly once |
| FamilyDb.DeleteKeepsOrds | server.js:338 | deleting a person's spouse rows keeps the ordinal invariant |
| FamilyDb.Database.constructor | server.js:80-96 | the tables start as given |
| FamilyDb.Database.SetSpouseNames | server.js:80-96 | `persons` is untouched; the spouse table becomes the old table without the person's rows, followed by the cleaned names numbered from 1 |
| FamilyDb.Database.InsertNumbered | server.js:87-95 | the loop appends one row per cleaned name, with `ord` counting from 1 |
| FamilyDb.Database.FindChild | server.js:335 | finds the first row naming `id` as father, or reports that none does |
| FamilyDb.Database.DeletePerson | server.js:332-341 | deleted iff no row names the person as father; if deleted, exactly the person's row and spouse rows are gone; otherwise both tables are unchanged |
| CsvExport.DoubleQuotes | server.js:442 | the result is at least as long as the input |
| CsvExport.EscapeCsv | server.js:440-443 | the escaped cell starts and ends with `"` |
| CsvExport.QuoteCountAppend | server.js:442 | quote counts add up over a concatenation |
| CsvExport.DoubleQuotesCount | server.js:442 | escaping doubles every quote and adds no other character |
| CsvExport.EscapeNullIsEmpty | server.js:441 | NULL and the empty string both escape to `""` |
| CsvExport.ReadQuoted | server.js:440-443 | reading a quoted field consumes input |
| CsvExport.ParseField | server.js:440-443 | reading a field consumes input |
| CsvExport.ReadQuotedDoubled | server.js:442 | un-doubling the escaped text up to its closing quote returns the original text and leaves the rest |
| CsvExport.FieldRoundTrip | server.js:440-443 | stripping the outer quotes and un-doubling returns the original value, with NULL read as empty |
| JsValues.Decimal | server.js:447 | `String(n)` of a non-negative integer is a non-empty string of decimal digits, starting with `0` only for zero |
| JsValues.DecimalRoundTrip | server.js:447 | the digits read back as the number |
| JsValues.IntText | server.js:84 | `String(n)` starts with `-` exactly for a negative number, and its digits read back as the magnitude |
| CsvExport.ReadDigits | server.js:447 | reading digits splits the text into a run of digits and a rest that does not start with one |
| CsvExport.ReadDigitsOf | server.js:447 | a run of digits followed by a non-digit reads back as that run |
| CsvExport.PrefixedThen | server.js:452 | one step of `join`: the separator, the first part, then the rest |
| CsvExport.JoinWithCons | server.js:452 | `join` writes the first part and then every other part after the separator |
| CsvExport.Prefixed | server.js:452 | one separator per part, and nothing else added |
| CsvExport.JoinWith | server.js:452 | `join` starts with the first part and adds exactly one separator between consecutive parts; no parts give the empty string |
| CsvExport.Escaped | server.js:448-451 | one escaped cell per value |
| CsvExport.Line | server.js:446-452 | a message's line starts with its id and a comma |
| CsvExport.Lines | server.js:446-452 | one line per message |
| CsvExport.ExportCsv | server.js:445-454 | the file starts with the header line, and is just the header when there are no messages |
| CsvExport.ResponseBody | server.js:458 | the body is a byte order mark, after which a reader gets back every message's record, in order |
| CsvExport.Values | server.js:441 | each value reads back as its text, with NULL read as empty |
| CsvExport.ExportedAll | server.js:446-452 | one record per message, in message order |
| CsvExport.ParseFields | server.js:446-452 | reading `n` comma-led fields yields exactly `n` values |
| CsvExport.ParseRecord | server.js:446-452 | reading a line consumes input |
| CsvExport.FieldsRoundTrip | server.js:448-452 | the four escaped cells read back as the four values |
| CsvExport.RecordRoundTrip | server.js:446-452 | a message's line reads back as the exported record |
| CsvExport.BodyRoundTrip | server.js:446-454 | the lines after the header read back as the records, in order |
| CsvExport.ExportRoundTrip | server.js:445-454 | the whole file (header, then one line per message, joined with newlines) reads back as the records, in order |
| JsText.TrimStart | public/app.js:326 | removes the longest white-space prefix |
| JsText.TrimEnd | public/app.js:326 | removes the longest white-space suffix |
| JsText.Trim | public/app.js:326 | the result has no white space at either end |
| JsText.TrimPadded | public/app.js:326 | one white-space character on each side of a bounded string is trimmed away |
| JsText.TrimEmptyIff | public/app.js:326-327 | the trimmed query is empty iff the input is all white space |
| JsText.TrimKeepsBoundedString | server.js:84 | a string with no white space at either end is its own trim |
| JsText.TrimIdempotent | public/app.js:326 | trimming twice is trimming once |
| JsText.ToLower | public/app.js:326 | lower-casing keeps the length, leaves no letter `A`–`Z`, turns each upper-case letter into the lower-case letter at the same place in the alphabet, keeps every other character, and so keeps white space where it was |
| JsText.ToLowerKeepsUncased | public/app.js:326 | a string with no upper-case letter is its own lower-case form |
| JsText.ToLowerIdempotent | public/app.js:326 | a lower-cased string has no letter `A`–`Z`, and lower-casing twice is lower-casing once |
| JsText.TrimOfLower | public/app.js:326 | trimming and lower-casing commute |
| JsText.Includes | public/app.js:332 | the empty query is found in every string, and a query longer than the string in none |
| JsText.IncludesIff | public/app.js:332 | `includes` holds iff the query occurs at some position |
| JsText.MissingLetterNotIncluded | public/app.js:332 | a query with a letter the name lacks is not included |
| JsText.IncludesEmpty | public/app.js:332 | the empty query is included in every name |
| Hierarchy.Up | public/app.js:140-141 | walking up never leads to a later node |
| Hierarchy.UpAtRoot | public/app.js:140-141 | walking up from the root stays at the root |
| Hierarchy.UpAdd | public/app.js:140-141 | walking up `a` steps and then `b` steps is walking up `a + b` steps |
| Hierarchy.Walk | public/app.js:139-142 | the walk is empty iff it starts at no node; it starts at its start, ends at the root, and goes from child to parent with strictly decreasing positions |
| Hierarchy.Ancestors | public/app.js:138-143 | empty exactly for the root; otherwise it starts at the parent, ends at the root, each entry is the parent of the one before, and all are above the node |
| Hierarchy.GetAncestors | public/app.js:138-143 | the `while` loop returns exactly the ancestors |
| Hierarchy.WalkUnfold | public/app.js:141 | one turn of the loop moves the first node of the walk onto the collected list |
| Hierarchy.AncestorsAreUpSteps | public/app.js:138-143 | the `k`-th ancestor is the node `k + 1` steps up; their number is the depth: the fewest steps that reach the root |
| Hierarchy.ChildrenBelow | public/app.js:144-146 | the children among the first `m` nodes, ascending |
| Hierarchy.Children | public/app.js:144-146 | exactly the nodes whose parent is `n`, in ascending order |
| Hierarchy.LeafHasNoChildren | public/app.js:145 | the children list is empty iff no node names `n` as its parent |
| Hierarchy.Visible | public/app.js:148 | the visible set lies within the tree |
| Hierarchy.VisibleIsUpOrChild | public/app.js:148 | every visible node is on the way up from `n` or is a child of `n` |
| Hierarchy.UpStepIsSelfOrAncestor | public/app.js:138-143 | every node on the way up is `n` or one of its ancestors |
| Hierarchy.UpStepIsVisible | public/app.js:148 | every node on the way up from `n` is visible |
| Hierarchy.VisibleIff | public/app.js:147-148 | a node is visible iff it lies on the way from `n` to the root or is a child of `n` |
| Hierarchy.VisibleIsRootedSubtree | public/app.js:147-148 | the root is visible, and the parent of every visible node is visible |
| Hierarchy.SiblingHidden | public/app.js:147-148 | a sibling of `n` is not visible |
| Hierarchy.GrandchildHidden | public/app.js:147-148 | a grandchild of `n` is not visible |
| Hierarchy.CousinHidden | public/app.js:147-148 | a cousin of `n` is not visible |
| Hierarchy.PhotoHref | public/app.js:261 | the image is the `photo_url` when it is present and non-empty, and `/images/default.png` otherwise |
| FocusView.ResetView | public/app.js:159-163 | the reset state fits the tree |
| FocusView.CardOpacities | public/app.js:151 | one opacity per card: 1 exactly for the lit cards, the fade for the others |
| FocusView.CardEvents | public/app.js:152 | one pointer-events value per card: "auto" exactly for the lit cards |
| FocusView.LinkOpacities | public/app.js:155 | one opacity per link: 1 exactly when both its ends are lit, 0.04 otherwise |
| FocusView.FocusOn | public/app.js:147-158 | the focused state fits the tree |
| FocusView.ClickOn | public/app.js:289-291 | the clicked state fits the tree |
| FocusView.Query | public/app.js:326 | the query is empty exactly when the box holds only white space; otherwise it has no white space at either end and no upper-case letter |
| FocusView.QueryShape | public/app.js:326 | trimming then lower-casing leaves no white space at either end, and nothing at all exactly for a blank value |
| FocusView.Matches | public/app.js:332 | a name matches iff the query occurs at some position of its lower-cased form |
| FocusView.MatchSet | public/app.js:331-333 | the lit cards are exactly those whose lower-cased name contains the query |
| FocusView.SearchFor | public/app.js:325-335 | the searched state fits the tree |
| FocusView.ShowMatches | public/app.js:327-334 | the state after a search fits the tree |
| FocusView.Step | public/app.js:280-335 | every input leaves a state that fits the tree |
| FocusView.FocusShowsLineAndChildren | public/app.js:147-152 | after a focus, a card is at opacity 1 iff it is on the way to the root or a child of `n`; it is clickable iff it is at opacity 1; otherwise it is at 0.07 |
| FocusView.FocusLinksFollowCards | public/app.js:154-155 | after a focus a link is at opacity 1 iff the card it leads to is, and at 0.04 otherwise |
| FocusView.FocusKeepsSelection | public/app.js:147-158 | a focus keeps the selection, and nothing else of the earlier state affects it |
| FocusView.ResetIsIdempotent | public/app.js:307-312 | the reset button does what a canvas click does, and resetting twice is resetting once |
| FocusView.ResetClearsAll | public/app.js:159-163 | after a reset every card is opaque, clickable and unselected, and every link is opaque |
| FocusView.ClickForgetsHistory | public/app.js:289-291 | the state after clicking a clickable card depends on that card alone |
| FocusView.ClickSelectsExactlyOne | public/app.js:290 | after a click exactly the clicked card is selected, and it is opaque and clickable |
| FocusView.ClickTwiceIsClickOnce | public/app.js:289-291 | clicking the same card again changes nothing |
| FocusView.BlankSearchResets | public/app.js:326-330 | an all-white-space query resets like a canvas click |
| FocusView.SearchLightsMatches | public/app.js:326-334 | a card is at opacity 1 iff its lower-cased name contains the query; it is clickable iff it is at opacity 1; otherwise it is at 0.12; every link is at 0.08; the selection is kept |
| FocusView.MatchCard | public/app.js:331-334 | one card after a non-empty search: opaque and clickable iff it matches, otherwise at 0.12 |
| FocusView.SearchOverwritesFocus | public/app.js:331-334 | no opacity or pointer state from before a search survives it |
| FocusView.SearchIgnoresPaddingAndCase | public/app.js:326 | trimming or lower-casing the box's value first does not change the search |
| FocusView.QueryIgnoresPaddingAndCase | public/app.js:326 | the query of a trimmed or lower-cased value is the same query |
| FocusView.TreeView.constructor | public/app.js:213-230 | a new view starts fully reset |
| FocusView.TreeView.ResetFocus | public/app.js:159-163 | the arrays become the reset state |
| FocusView.TreeView.PaintCards | public/app.js:150-152 | each card gets opacity 1 and "auto" when lit, and the dim opacity and "none" otherwise |
| FocusView.TreeView.PaintLinks | public/app.js:154-155 | each link gets opacity 1 when both its ends are lit, and 0.04 otherwise |
| FocusView.TreeView.FillLinks | public/app.js:334 | every link gets the same opacity |
| FocusView.TreeView.FocusOnNode | public/app.js:147-158 | returns the visible set, and the arrays become the focused state |
| FocusView.TreeView.ClickCard | public/app.js:280-291 | the arrays become the state `Step` gives for the click |
| FocusView.TreeView.ClickCanvas | public/app.js:307 | the arrays become the reset state |
| FocusView.TreeView.PressResetButton | public/app.js:309-312 | the arrays become the reset state |
| FocusView.TreeView.TypeInSearch | public/app.js:325-335 | the arrays become the state `Step` gives for the search |
| FocusView.TreeView.PaintMatches | public/app.js:331-333 | cards that match get opacity 1 and "auto"; the others get 0.12 and "none" |
| FocusView.Line4Ancestors | public/app.js:138-143 | in a four-generation line, the third generation's ancestors are the two above it |
| FocusView.Line4Children | public/app.js:144-146 | in a four-generation line, the third generation's only child is the fourth |
| FocusView.FocusOnThirdGeneration | public/app.js:147-148 | focusing the third generation of a four-generation line shows the whole line |
| FocusView.PaddedQuery | public/app.js:326 | `" حس "` becomes the query `"حس"` |
| FocusView.PrefixMatches | public/app.js:332 | `حسن` and `حسام` contain `حس` |
| FocusView.OthersDoNotMatch | public/app.js:332 | `حازم` and `علي` do not contain `حس` |
| FocusView.MatchesOfBrothers | public/app.js:331-333 | searching `حس` among a father and three sons lights exactly the two matching sons |
| FocusView.SearchByPrefix | public/app.js:325-333 | typing `" حس "` lights the same two cards |

## Left out

- Layout, zoom, fit-to-screen, resize debouncing and the SVG decoration (public/app.js:80-135 and 165-211): they are floating-point drawing done by d3 and the DOM. The reset button's `fitToScreen` call is left out for the same reason; only its `resetFocus` is modelled.
- The modal, the drawer, the details panel and the theme (public/app.js:10-77, public/theme.js) are DOM and localStorage glue.
- The card click is modelled as one atomic step. In the source it awaits `fetchPerson` first. A failed fetch leaves the state unchanged, and clicks interleaved during the await are not modelled.
- `d3.hierarchy` and `root.descendants()` are not part of this model. Their result is taken as given: a `WellFormed` list, which asks only that the root comes first and every parent comes before its children. The lemmas hold for any such order; d3's breadth-first order is one of them.
- Express routing, sessions, login, uploads, the CMS routes, and the SQL engine are I/O and are not modelled. db.js and seed.js are not part of this model either. Queries are modelled by their effect on in-memory tables.
- The `person_spouses` `id` column is represented by the row's position in the table. `getSpouseNames` orders by `ord, id`. Under the ordinal invariant this is table order, which is what `RowsOf` returns.
- TreeBuilder.BuildTree: requires unique ids. The column is the table's primary key. The way `new Map` keeps the last of several rows with the same id is not modelled.
- JsText.ToLower: maps only `A`–`Z`. Full Unicode case mapping is not modelled. The names in this tree are Arabic, which has no case.
- JavaScript numbers above 2^53 are not modelled. Ids are unbounded integers.
- JsValues.Decimal: models `String(id)` for non-negative ids only; the export uses it for the id column, whose ids come from an autoincrement column. Negative numbers in form values go through `JsValues.IntText`.
- FamilyDb.NormalizeMulti: form values are modelled as a single value or a one-level array of values. JSON fractions, exponents and nested arrays are not modelled; every non-array object is `[object Object]`.
- FamilyDb.Database.SetSpouseNames: modelled as one atomic step. In the source the DELETE and each INSERT are separate awaited statements with no transaction. Two requests for the same person that interleave can leave ords such as 1, 1, 2, 2, and a failing statement leaves the table half rewritten. `OrdsConsecutive`, `SetSpousesKeepsOrds` and `ResubmitKeepsSpouses` hold only for requests run one at a time that all succeed.
- FamilyDb.Database.DeletePerson: modelled as one atomic step. In the source the child check (server.js:335) and the two DELETEs (338-339) are separate awaited statements with no transaction, and SQLite enforces no foreign key unless `PRAGMA foreign_keys` is on. A child inserted between the check and the delete is left with a dangling `father_id`. `DeleteKeepsFathersResolve` and `NoRowDroppedWhileFathersResolve` hold only for requests run one at a time.

