# AI Redliner core, modelled in Dafny

AI Redliner is a Word add-in paired with a chat server. The user asks a question about the
open document. The server's agent proposes a batch of edits ("Microsoft actions"), and the
add-in applies the edits the user selects to the document as tracked changes. This project
models the parts of that loop that decide what happens to the document, and proves what
they do.

- **Document index** (`Indexer`, `LocationGrammar`). The add-in walks Word's paragraph list and
  gives each paragraph a key: `{docPosition}.p{i}` outside tables and
  `{docPosition}.t{t}.r{r}.c{c}.p{k}` inside one. This is `createParagraphMapping`. The
  location regexes are modelled by a small pattern matcher. Keys are proved distinct, of the
  right form and readable back.
- **Resolver** (`Resolver`, `Ranges`). `resolveLocation` turns a key, and optionally a
  `withinPara` search, into a paragraph, a run of text, a cell, a row or a table. Every error
  it can raise is modelled.
- **Keys and tables** (`CellKeys`). The indexer numbers tables by counting the exits from
  them, and never looks at the table list. For a body whose tables are parted by paragraphs
  and hold no empty table, row or cell, the counters are proved to agree with the tables the
  resolver reads. So every key of the mapping resolves to the paragraph it was made for.
- **Handlers and engine** (`AppendAction` … `PrependAction`, `Engine`, `Host`). Each Microsoft
  action handler is a method on a `WordDocument` object. `executeWordAction` does the
  following:
  - turns change tracking on;
  - sorts the batch by descending docPosition;
  - inserts each action's comment;
  - dispatches the action;
  - collects the failures into one error.
- **Review panel** (`Review`, `Sorting`, `Fingerprint`). This covers selecting modifications,
  the stale-document check by document fingerprint (`simpleHash`), and the comparator that
  orders a batch. Each selected modification is applied on its own and its outcome recorded.
- **Chat panel** (`Chat`, `SessionUtils`). This covers:
  - folding streamed events into the message list;
  - recording a decided or auto-rejected batch;
  - fingerprinting the document when a message is sent;
  - turning a stored session back into display messages.
- **Server helpers** (`AgentUtils`, `AgentManager`). These are the placeholder encoding of
  typographic characters sent to the model and back, the removal of a `<thinking>` block, and
  the per-session agent cache.

Word itself is modelled as a value `Doc`: a body of plain paragraphs and tables of rows of
cells of paragraphs, each paragraph a handle and a run of formatted glyphs, plus the comments
and the change-tracking mode. The `Host.WordDocument` class holds that state and is changed
in place by the handlers.

Three modelling choices:

- Word APIs the code calls (`insertText`, `deleteRows`, `insertTable`, …) are methods whose
  contracts state the new document.
- The model is checked against what the code does, not what its comments say. For example:
  - the `delete_row`, `insert_row` and `prepend` handlers match keys without a docPosition,
    which the index never produces;
  - a plain `insert_row` key inserts before the row;
  - `prepend` has no `case` in the dispatcher.
- Each of these is a proved lemma.

## Model

| member | source | states |
|---|---|---|
| Indexer.CreateParagraphMapping | frontend/src/taskpane/taskpane.ts:55-101 | The loop over `paragraphs.items`, with its table counter, inside-table flag and per-cell counters, builds exactly the reference mapping `Mapping(fs)`. |
| Indexer.Put | frontend/src/taskpane/taskpane.ts:81 | Writing a record key overwrites an existing entry where it stands and appends a new one, in insertion order. |
| Indexer.KeysDistinct | frontend/src/taskpane/taskpane.ts:81-98 | No two paragraphs get the same key. |
| Indexer.KeyOfMatches | frontend/src/taskpane/taskpane.ts:81-98 | A paragraph outside tables gets a key of the regular form and one inside a table a key of the table-cell form, and the key reads back the numbers it was built from. |
| Indexer.KeyOfLeading | frontend/src/taskpane/taskpane.ts:81-98 | Every key leads with its paragraph's flat index, the docPosition. |
| Indexer.CountersAfterExit | frontend/src/taskpane/taskpane.ts:74-79 | Leaving a table moves the table counter on and empties the cell counters. |
| Indexer.CountersAfterCell | frontend/src/taskpane/taskpane.ts:90-96 | A cell paragraph moves only its own cell's counter on by one. |
| Indexer.CountersAfterPlain | frontend/src/taskpane/taskpane.ts:72-82 | A paragraph outside tables that does not end a table changes no counter. |
| Indexer.MappingStep | frontend/src/taskpane/taskpane.ts:81-99 | Recording paragraph `i` extends the mapping by exactly that paragraph's entry. |
| Indexer.IsDocumentEmpty | frontend/src/taskpane/taskpane.ts:125-132 | The document is empty exactly when its body text is empty or trims to nothing. |
| Indexer.EmptyIffAllBlank | frontend/src/taskpane/taskpane.ts:125-132 | The document is empty exactly when every paragraph is blank. |
| Indexer.Snapshot | frontend/src/taskpane/taskpane.ts:151-164 | What is fingerprinted is the empty string exactly when the document is empty; otherwise it is the `key: text` lines of the paragraph mapping, joined by newlines. |
| LocationGrammar.Match | frontend/src/taskpane/taskpane.ts:196-199 | A full-string match of a location pattern returns the pattern's captured numbers, as many as it has groups. |
| LocationGrammar.RenderThenMatch | frontend/src/taskpane/taskpane.ts:196-199 | A key written from numbers by a well-formed pattern matches that pattern and gives back those numbers. |
| LocationGrammar.ResolverPatternsDiverge | frontend/src/taskpane/taskpane.ts:196-199 | The four resolver patterns diverge pairwise. |
| LocationGrammar.DivergingPatternsExclusive | frontend/src/taskpane/taskpane.ts:196-199 | No string matches two diverging patterns. |
| LocationGrammar.ParagraphKeyMatches | frontend/src/taskpane/taskpane.ts:81 | The regular key matches `/^\d+\.p(\d+)$/` and captures the paragraph index. |
| LocationGrammar.TableCellKeyMatches | frontend/src/taskpane/taskpane.ts:92-98 | The table-cell key matches the cell pattern and captures table, row, cell and paragraph-in-cell. |
| LocationGrammar.LeadingDocPosition | frontend/src/taskpane/taskpane.ts:370-373 | `/^(\d+)\./` gives the leading number of a key, or 0 when there is none. |
| LocationGrammar.KeyLeadingDocPosition | frontend/src/taskpane/taskpane.ts:370-373 | The sort reads back the docPosition of every key the index produces. |
| LocationGrammar.PrefixedKeysAreNotBare | frontend/src/taskpane/microsoft-actions/delete_row.ts:16-18 | A key that starts with a docPosition matches none of the unprefixed row, paragraph or cell patterns. |
| LocationGrammar.BareRowFormsExclusive | frontend/src/taskpane/microsoft-actions/insert_row.ts:20-37 | A key of the plain row form never matches the `.after` row form. |
| Resolver.OccurrencesFromMatches | frontend/src/taskpane/taskpane.ts:315-336 | Every listed start is a match of `find` at or after `from`, and each starts at least the length of `find` after the previous one. |
| Resolver.OccurrencesAreMatches | frontend/src/taskpane/taskpane.ts:315-336 | Every listed occurrence is a match of `find`, and the occurrences are ordered and do not overlap. |
| Resolver.OccurrencesFirst | frontend/src/taskpane/taskpane.ts:315-336 | Nothing is listed exactly when no match starts at or after `from`; otherwise no match starts before the first listed one. |
| Resolver.OccurrencesSuffix | frontend/src/taskpane/taskpane.ts:315-336 | The search resumed at the end of the `j`-th listed match lists exactly the matches after it. |
| Resolver.OccurrencesGapAt | frontend/src/taskpane/taskpane.ts:315-336 | No match starts between the end of one listed match and the next listed one. |
| Resolver.LocationFormsExclusive | frontend/src/taskpane/taskpane.ts:196-199 | At most one of the four location forms matches a string. |
| Resolver.ResolveParagraphKey | frontend/src/taskpane/taskpane.ts:240-257 | The index's key of a paragraph outside tables resolves, through the live list or a preloaded one, to that paragraph. |
| Resolver.ResolveCellKey | frontend/src/taskpane/taskpane.ts:258-309 | A table-cell key whose table, row, cell and paragraph numbers exist selects that paragraph with its text, and resolves to it, whatever its docPosition. |
| CellKeys.CountersTrack | frontend/src/taskpane/taskpane.ts:55-101 | When tables are parted by paragraphs and every table, row and cell holds a paragraph, the table counter at a cell paragraph is the number of the table that holds it, and the per-cell counter is the paragraph's place in its cell. |
| CellKeys.CellKeyResolves | frontend/src/taskpane/taskpane.ts:258-309 | The key the index gives a cell paragraph carries its real table number, selects that paragraph with its text and resolves to it. |
| CellKeys.MappingKeysResolve | frontend/src/taskpane/taskpane.ts:189-309 | Every key of the paragraph mapping resolves, live or through the preloaded list, to the paragraph it was made for, and the text found there is the text the mapping recorded. |
| Resolver.InvalidLocationIff | frontend/src/taskpane/taskpane.ts:311 | The invalid-format error is raised exactly for keys of none of the four forms. |
| Resolver.MessageHeads | frontend/src/taskpane/taskpane.ts:202-336 | Every other error message starts differently from the invalid-format one. |
| Resolver.TableFormsIgnoreWithin | frontend/src/taskpane/taskpane.ts:202-236 | Table and row keys resolve the same with or without `withinPara` and whatever the preloaded collection holds. |
| Resolver.NarrowIff | frontend/src/taskpane/taskpane.ts:315-336 | With `withinPara`, resolution fails when there is no match or the occurrence is outside [0, matches), and otherwise gives exactly that match. |
| Resolver.TargetParagraphExists | frontend/src/taskpane/taskpane.ts:240-309 | With the live paragraph list, the paragraph a regular or table-cell key selects is one of the body's paragraphs. With unique handles, the text found is what that handle reads. |
| Resolver.ResolvedInRange | frontend/src/taskpane/taskpane.ts:202-309 | A successful resolution names a table or row that exists. With the live paragraph list, it names a paragraph of the body, and a run found by `withinPara` lies inside that paragraph's text when handles are unique. |
| Ranges.ApplyToRangeFlat | frontend/src/taskpane/taskpane.ts:189-341 | An edit through a resolved range touches only the paragraphs the range covers, in place. |
| Ranges.FormatEffect | frontend/src/taskpane/microsoft-actions/highlight.ts:14-29 | Formatting a range changes no text, styles exactly the covered glyphs, and leaves every other glyph alone. |
| Ranges.AppendTextEffect | frontend/src/taskpane/microsoft-actions/append.ts:23-24 | Inserting at the end puts the text right after the range's text. |
| Ranges.PrependTextEffect | frontend/src/taskpane/microsoft-actions/prepend.ts:28-30 | Inserting at the start puts the text before the paragraph's text and changes no other paragraph. |
| Ranges.DeleteTextEffect | frontend/src/taskpane/microsoft-actions/delete.ts:14-29 | Deleting removes exactly the covered text. |
| RangeActions.ParagraphKeyTarget | frontend/src/taskpane/taskpane.ts:240-257 | A paragraph key names that paragraph's whole range, and no other paragraph has its handle. |
| RangeActions.WithinKeyTarget | frontend/src/taskpane/taskpane.ts:315-336 | With `withinPara`, a paragraph key narrows that paragraph's current text. |
| RangeActions.FormatKeepsTexts | frontend/src/taskpane/microsoft-actions/format_bold.ts:14-29 | Formatting any range changes no paragraph's text. |
| RangeActions.StyleParagraph | frontend/src/taskpane/microsoft-actions/format_bold.ts:14-29 | Styling a whole paragraph styles each of its glyphs and leaves every other paragraph as it was. |
| RangeActions.AppendAfterRun | frontend/src/taskpane/microsoft-actions/append.ts:23-24 | Appending after a found run puts the text right after the run and changes no other paragraph. |
| AppendAction.ExecuteAppend | frontend/src/taskpane/microsoft-actions/append.ts:15-30 | With no loc nothing happens; otherwise a successful resolution inserts the text at the end of the range; on failure the error is wrapped and the document is unchanged. |
| AppendAction.AppendToParagraph | frontend/src/taskpane/microsoft-actions/append.ts:15-30 | On the key of paragraph `i`, the text goes at the end of that paragraph and nowhere else. |
| AppendAction.AppendWithinResult | frontend/src/taskpane/microsoft-actions/append.ts:15-30 | With `withinPara`, a missing or out-of-range occurrence fails with the resolver's message, and otherwise the text follows that match. |
| AppendAction.AppendWithin | frontend/src/taskpane/microsoft-actions/append.ts:15-30 | With `withinPara`, append succeeds exactly when the occurrence exists, and then puts the text right after it. |
| DeleteAction.ExecuteDelete | frontend/src/taskpane/microsoft-actions/delete.ts:14-29 | The resolved range is deleted, or the error is wrapped and the document unchanged. |
| DeleteAction.DeleteParagraph | frontend/src/taskpane/microsoft-actions/delete.ts:14-29 | On a paragraph key, that paragraph is emptied and every other paragraph stays. |
| DeleteAction.DeleteWithin | frontend/src/taskpane/microsoft-actions/delete.ts:14-29 | With `withinPara`, delete succeeds exactly when the occurrence exists, and then removes exactly that match. |
| DeleteAction.DeleteAgreesWithDeleteTable | frontend/src/taskpane/microsoft-actions/delete_table.ts:29-34 | On a whole-table key that exists, `delete` has the same effect as `delete_table`. |
| HighlightAction.ExecuteHighlight | frontend/src/taskpane/microsoft-actions/highlight.ts:14-29 | The resolved range is highlighted yellow, or the error is wrapped and the document unchanged. |
| HighlightAction.HighlightKeepsTexts | frontend/src/taskpane/microsoft-actions/highlight.ts:14-29 | Highlight changes no paragraph's text. |
| HighlightAction.HighlightParagraph | frontend/src/taskpane/microsoft-actions/highlight.ts:14-29 | On a paragraph key, every glyph of that paragraph is highlighted and nothing else changes. |
| FormatBoldAction.ExecuteFormatBold | frontend/src/taskpane/microsoft-actions/format_bold.ts:14-29 | The resolved range is made bold, or the error is wrapped and the document unchanged. |
| FormatBoldAction.FormatBoldKeepsTexts | frontend/src/taskpane/microsoft-actions/format_bold.ts:14-29 | Bold changes no paragraph's text. |
| FormatBoldAction.FormatBoldParagraph | frontend/src/taskpane/microsoft-actions/format_bold.ts:14-29 | On a paragraph key, every glyph of that paragraph is bold and nothing else changes. |
| StrikethroughAction.ExecuteStrikethrough | frontend/src/taskpane/microsoft-actions/strikethrough.ts:14-29 | The resolved range is struck through, or the error is wrapped and the document unchanged. |
| StrikethroughAction.StrikethroughKeepsTexts | frontend/src/taskpane/microsoft-actions/strikethrough.ts:14-29 | Strikethrough changes no paragraph's text. |
| StrikethroughAction.StrikethroughParagraph | frontend/src/taskpane/microsoft-actions/strikethrough.ts:14-29 | On a paragraph key, every glyph of that paragraph is struck through and nothing else changes. |
| DeleteRowAction.ExecuteDeleteRow | frontend/src/taskpane/microsoft-actions/delete_row.ts:8-47 | The method does the following, in order: a missing loc is a no-op; a key not of the form `t{t}.r{r}` fails; the table index is checked, then the row; then that row is deleted. |
| DeleteRowAction.DeleteRowByKey | frontend/src/taskpane/microsoft-actions/delete_row.ts:29-41 | On `t{t}.r{r}`, the table is checked, then the row, then exactly that row is deleted. |
| DeleteRowAction.DeleteRowRejectsPrefixed | frontend/src/taskpane/microsoft-actions/delete_row.ts:16-18 | Every key the index produces is refused as an invalid row location. |
| DeleteRowAction.RemoveRowEffect | frontend/src/taskpane/microsoft-actions/delete_row.ts:41 | A removed row leaves its table one row shorter, or removes the table when it was its only row; everything else stays. |
| DeleteTableAction.ExecuteDeleteTable | frontend/src/taskpane/microsoft-actions/delete_table.ts:8-40 | A key not of the form `{d}.t{t}` fails; an out-of-range table fails; otherwise table `t` is deleted. |
| DeleteTableAction.DeleteTableByKey | frontend/src/taskpane/microsoft-actions/delete_table.ts:17-34 | On `{d}.t{t}`, table `t` is deleted whatever `d` is. |
| DeleteTableAction.DeleteTableEffect | frontend/src/taskpane/microsoft-actions/delete_table.ts:34 | Exactly table `t` leaves the table list, and the paragraphs outside tables, comments and handles stay. |
| InsertRowAction.ExecuteInsertRow | frontend/src/taskpane/microsoft-actions/insert_row.ts:9-66 | The method does the following, in order: parses the row key; checks the table, then the row; inserts as many rows as `rowData` has (1 without it) before or after that row, filled from `rowData`. |
| InsertRowAction.ParseRowLocationKeys | frontend/src/taskpane/microsoft-actions/insert_row.ts:20-37 | `t{t}.r{r}` inserts before row `r`, `t{t}.r{r}.after` after it, and nothing else parses. |
| InsertRowAction.InsertRowRejectsPrefixed | frontend/src/taskpane/microsoft-actions/insert_row.ts:20-37 | Every key the index produces is refused as an invalid row location. |
| InsertRowAction.InsertRowsEffect | frontend/src/taskpane/microsoft-actions/insert_row.ts:58 | The table gets exactly the new rows on the chosen side. Each is as wide as row `r`, filled from the values and given fresh handles. Everything else stays. |
| CreateTableAction.ExecuteCreateTable | frontend/src/taskpane/microsoft-actions/create_table.ts:11-44 | The method does the following, in order: fails on missing fields; parses `{d}.p{n}`; reloads the collection; checks `n`; inserts a `rowCount` by `columnCount` table after the paragraph. |
| CreateTableAction.CreateTableByKey | frontend/src/taskpane/microsoft-actions/create_table.ts:20-38 | On `{d}.p{n}` with both counts, an index past the paragraphs fails, and a paragraph outside tables gets the table right after it. |
| CreateTableAction.CreateTableMissingFields | frontend/src/taskpane/microsoft-actions/create_table.ts:14-15 | A missing loc or count fails before anything is loaded. |
| CreateTableAction.InsertTableEffect | frontend/src/taskpane/microsoft-actions/create_table.ts:38 | The block after the anchor paragraph is the new table, filled from `values` with fresh handles, and it takes its place in the table list. |
| PrependAction.ExecutePrepend | frontend/src/taskpane/microsoft-actions/prepend.ts:9-36 | A key not of the form `p{n}` fails; `n` is checked against the collection; the text is inserted at the start of that paragraph. |
| PrependAction.PrependByKey | frontend/src/taskpane/microsoft-actions/prepend.ts:17-30 | On `p{n}`, `n` is checked, and the text goes into the `n`-th collected paragraph. |
| PrependAction.PrependRejectsPrefixed | frontend/src/taskpane/microsoft-actions/prepend.ts:17-20 | Every key the index produces is refused. |
| PrependAction.PrependEffect | frontend/src/taskpane/microsoft-actions/prepend.ts:24-30 | With a fresh collection, `p{n}` puts the text before paragraph `n` and nowhere else. |
| Host.WordDocument.SetTrackingMode | frontend/src/taskpane/taskpane.ts:343-355 | "disable" turns tracking off and any other mode tracks all changes; nothing else changes. |
| Host.WordDocument.InsertComment | frontend/src/taskpane/taskpane.ts:384-388 | A comment is added on the range and the body is unchanged. |
| Host.WordDocument.SetFont | frontend/src/taskpane/microsoft-actions/highlight.ts:14-29 | The range's glyphs get the style and nothing else changes. |
| Host.WordDocument.InsertTextAtEnd | frontend/src/taskpane/microsoft-actions/append.ts:24 | The body becomes the body with the text inserted after the range. |
| Host.WordDocument.InsertTextAtStart | frontend/src/taskpane/microsoft-actions/prepend.ts:28-30 | The body becomes the body with the text inserted before the paragraph. |
| Host.WordDocument.Delete | frontend/src/taskpane/microsoft-actions/delete.ts:14-29 | The range's text is removed from the body. |
| Host.WordDocument.DeleteRows | frontend/src/taskpane/microsoft-actions/delete_row.ts:41 | Row `r` of table `t` is removed. |
| Host.WordDocument.DeleteTable | frontend/src/taskpane/microsoft-actions/delete_table.ts:34 | Table `t` is removed. |
| Host.WordDocument.InsertRowsNextTo | frontend/src/taskpane/microsoft-actions/insert_row.ts:58 | The rows are inserted next to row `r` with fresh handles. |
| Host.WordDocument.InsertTableAfterBlock | frontend/src/taskpane/microsoft-actions/create_table.ts:38 | The table is inserted after block `k`'s paragraph with fresh handles. |
| Host.ParagraphCollection.Load | frontend/src/taskpane/microsoft-actions/create_table.ts:28-29 | After a reload, the collection holds the document's current paragraph handles. |
| Host.ParagraphCollection.Loaded | frontend/src/taskpane/taskpane.ts:364-366 | A freshly loaded collection holds the document's paragraph handles in order. |
| Engine.ErrorLine | frontend/src/taskpane/taskpane.ts:430-431 | An error line is the marker, the upper-cased action name, ": " and the message. |
| Engine.ExecuteAction | frontend/src/taskpane/taskpane.ts:384-428 | The comment is inserted first when there is one. The action is then dispatched by name. The new state and outcome are those of the reference `Handle`. |
| Engine.ExecuteStep | frontend/src/taskpane/taskpane.ts:378-432 | One iteration with its `try`/`catch` is the reference `Step`: a failure appends exactly its error line. |
| Engine.ExecuteWordAction | frontend/src/taskpane/taskpane.ts:357-445 | After switching tracking to all changes and loading the paragraphs, the loop over the sorted actions computes exactly the reference run, and the call fails exactly when errors were collected. |
| Engine.ExecutionOrder | frontend/src/taskpane/taskpane.ts:369-375 | The actions run in descending docPosition, each once, with ties in list order and a key without docPosition counting as 0. |
| Engine.UndispatchedIsNoOp | frontend/src/taskpane/taskpane.ts:426-427 | An action name with no `case`, "prepend" among them, changes neither the document nor the collection. |
| Engine.ErrorLineTagged | frontend/src/taskpane/taskpane.ts:430-431 | Every error line starts with the marker and the upper-cased action name. |
| Engine.StepErrors | frontend/src/taskpane/taskpane.ts:378-432 | A step adds at most one error line. When it adds one, the body is as before the handler; when it adds none, the handler succeeded. |
| Engine.CommentSurvivesFailure | frontend/src/taskpane/taskpane.ts:384-432 | A comment inserted before a failing handler stays in the document. |
| Engine.RunErrors | frontend/src/taskpane/taskpane.ts:377-433 | A run adds at most one error line per action. |
| Engine.AggregateIff | frontend/src/taskpane/taskpane.ts:438-440 | The call fails exactly when some step collected an error, and its message carries all of them. |
| Engine.RunSucceedsIff | frontend/src/taskpane/taskpane.ts:377-440 | A run with no failing step succeeds, and one whose last step fails does not. |
| Sorting.SortPermutes | frontend/src/taskpane/taskpane.ts:369-375 | The sorted list holds exactly the input's elements, as a multiset. |
| Sorting.SortOrders | frontend/src/taskpane/taskpane.ts:369-375 | With a consistent comparator, the sorted list is in comparator order. |
| Sorting.SortStable | frontend/src/taskpane/taskpane.ts:369-375 | Elements the comparator ties keep their original relative order, as section 23.1.3.30 of ECMA-262 requires. |
| Sorting.ByKeyDescendingFacts | frontend/src/taskpane/taskpane.ts:374 | The descending key comparator is a total preorder, ties exactly equal keys, and orders a list exactly when its keys never rise. |
| Fingerprint.SimpleHash | frontend/src/taskpane/components/ModificationReview.tsx:29-37 | The loop, with `<<` and `&` as ECMAScript evaluates them on 32-bit integers, returns the decimal rendering of the reference fold `h := ToInt32(31h + unit)` over the UTF-16 code units. |
| Fingerprint.ShiftStepIsFoldStep | frontend/src/taskpane/components/ChatInterface.tsx:39-40 | One shift-subtract-and step equals one step of the reference fold. |
| Fingerprint.ToInt32 | frontend/src/taskpane/components/ChatInterface.tsx:39-40 | The result is the 32-bit signed value congruent to the input modulo 2^32. |
| Fingerprint.HashOfEmpty | frontend/src/taskpane/components/ChatInterface.tsx:35-43 | The empty string hashes to "0". |
| Fingerprint.HashEqualIff | frontend/src/taskpane/components/ModificationReview.tsx:161-163 | Two fingerprints are equal exactly when their 32-bit hash values are equal. |
| Review.Toggle | frontend/src/taskpane/components/ModificationReview.tsx:134-138 | Toggling flips the membership of exactly the given index. |
| Review.TogglesKeepSelection | frontend/src/taskpane/components/ModificationReview.tsx:134-146 | From the initial all-selected state, toggles and select-all keep the selection distinct and in range. |
| Review.ToggleAllClearsIffAllSelected | frontend/src/taskpane/components/ModificationReview.tsx:140-146 | On a reachable selection, comparing lengths compares contents: select-all clears exactly when everything is selected, and otherwise selects every index. |
| Review.GetStatus | frontend/src/taskpane/components/ModificationReview.tsx:278-284 | The status is error, then applied, then applied or rejected once disabled, and otherwise pending, with errors and successes read for truthiness. |
| Review.CompareKeys | frontend/src/taskpane/components/ModificationReview.tsx:226-232 | The loop computes the reference tuple order `KeyOrder`: descending lexicographic, missing places counting as 0. |
| Review.CompareIsTotalPreorder | frontend/src/taskpane/components/ModificationReview.tsx:177-243 | The comparator is antisymmetric, transitive and consistent on ties, so the sort is well defined. |
| Review.BatchIsSelection | frontend/src/taskpane/components/ModificationReview.tsx:170-243 | The batch is a permutation of the selected, edited modifications. It is in comparator order, and tied selected modifications keep their list order. |
| Review.BatchIndicesDistinct | frontend/src/taskpane/components/ModificationReview.tsx:170-176 | No two modifications in the batch share an original index. |
| Review.PrefixedKeysClassed | frontend/src/taskpane/components/ModificationReview.tsx:179-219 | Row actions sort last. A key with a docPosition is never classed as a cell and parses to `[0]`. |
| Review.BareKeysParsed | frontend/src/taskpane/components/ModificationReview.tsx:199-220 | The unprefixed keys parse to the numbers they were written with. |
| Review.IndexKeysTie | frontend/src/taskpane/components/ModificationReview.tsx:177-243 | Two modifications of the same kind on index keys without `withinPara` tie, so they keep list order. |
| Review.Unselected | frontend/src/taskpane/components/ModificationReview.tsx:261 | The rejected list is every index not selected, in order. |
| Review.Record | frontend/src/taskpane/components/ModificationReview.tsx:249-254 | One `try`/`catch` files the outcome under its index: the keys of the two records grow by exactly that index. |
| Review.RecordKeeps | frontend/src/taskpane/components/ModificationReview.tsx:249-254 | Filing a fresh index keeps the error and success records disjoint, with failure messages non-empty. |
| Review.HandleApply | frontend/src/taskpane/components/ModificationReview.tsx:157-272 | On a stale fingerprint nothing runs. Otherwise each batch entry is applied by its own `executeWordAction` call, and the document and records are those of the reference `HandleApplyEffect`. |
| Review.MismatchRejectsAll | frontend/src/taskpane/components/ModificationReview.tsx:158-168 | When the current fingerprint differs, the document is unchanged and every index is reported rejected. |
| Review.FailureMessagesNonEmpty | frontend/src/taskpane/components/ModificationReview.tsx:252-253 | A failed call reports a non-empty message. |
| Review.ApplyAllRecords | frontend/src/taskpane/components/ModificationReview.tsx:248-255 | Running a batch of distinct indices files each index under exactly one record. |
| Review.ResultsPartition | frontend/src/taskpane/components/ModificationReview.tsx:245-261 | Every selected index is in exactly one of errors and successes, no other index is in either, and the rejected list is the unselected indices. |
| Review.StatusAfterApply | frontend/src/taskpane/components/ModificationReview.tsx:278-284 | After a run, a selected index shows error or applied, and an unselected one shows rejected. |
| Chat.AppendContent | frontend/src/taskpane/components/ChatInterface.tsx:110-126 | The list keeps its length or gains one assistant message, and it always ends with an assistant message with content. |
| Chat.ContentExtendsLast | frontend/src/taskpane/components/ChatInterface.tsx:110-126 | Streamed text extends only the last assistant message, by exactly the chunk. |
| Chat.ContentChunksConcatenate | frontend/src/taskpane/components/ChatInterface.tsx:110-126 | Two chunks give the same list as one chunk of both. |
| Chat.OtherEventsKeepMessages | frontend/src/taskpane/components/ChatInterface.tsx:127-135 | The other events behave as follows: a tool event adds one indicator; an actions event sets the pending batch (empty when absent); end of turn clears loading; nothing else changes. |
| Chat.ApplyRecordsOnce | frontend/src/taskpane/components/ChatInterface.tsx:139-154 | A decision appends exactly one record of the pending batch and clears the batch. |
| Chat.MismatchRecordedAsWired | frontend/src/taskpane/components/ChatMessageList.tsx:100 | With the panel's flag passed positionally, a mismatch is recorded as no mismatch, with `true` as the failed indices. |
| Chat.MismatchRecordedAsIntended | frontend/src/taskpane/components/ChatInterface.tsx:139-154 | With the flag in its own position, after any run of the panel the record's mismatch flag holds exactly when the panel found the document changed. |
| Chat.SendClosesBatch | frontend/src/taskpane/components/ChatInterface.tsx:156-187 | Sending appends an auto-rejected record of a pending batch (if any) and then the user's message. It leaves nothing pending and loading on. |
| Chat.SentHashIsOfSentText | frontend/src/taskpane/components/ChatInterface.tsx:172-180 | The stored fingerprint is that of the text sent. An empty document is sent as "" and fingerprinted "0". |
| Chat.UnchangedDocumentIsNotStale | frontend/src/taskpane/components/ModificationReview.tsx:158-168 | Applying to the document that was sent never takes the stale path. |
| SessionUtils.ExtractUserInput | frontend/src/taskpane/components/sessionUtils.ts:10-13 | Text without the opening tag comes back unchanged. |
| SessionUtils.UserInputRecovered | frontend/src/taskpane/components/sessionUtils.ts:10-13 | For a message the server wrapped as `<user_input>prompt</user_input>`, the bubble shows the trimmed prompt. This needs no opening tag before it and no closing tag inside it. |
| SessionUtils.MapMessages | frontend/src/taskpane/components/sessionUtils.ts:33-67 | The loop produces exactly the reference rendering of the stored messages. |
| SessionUtils.UserMessageRule | frontend/src/taskpane/components/sessionUtils.ts:39-43 | A user message yields one bubble of its extracted input exactly when it has a text block. |
| SessionUtils.AssistantMessageRule | frontend/src/taskpane/components/sessionUtils.ts:44-61 | An assistant message yields its first text when that is not blank. It then yields one proposal entry, counting the parsed actions, exactly when it calls the edit tool. |
| SessionUtils.OtherRolesSkipped | frontend/src/taskpane/components/sessionUtils.ts:36-64 | Other roles yield nothing, and no message yields more than two entries. |
| SessionUtils.RenderAllAppend | frontend/src/taskpane/components/sessionUtils.ts:33-67 | The rendering of a concatenation is the concatenation of the renderings. |
| SessionUtils.RenderAllBound | frontend/src/taskpane/components/sessionUtils.ts:33-67 | The list has at most two entries per stored message. |
| SessionUtils.OneEntryPerToolCall | frontend/src/taskpane/components/sessionUtils.ts:54-61 | There is exactly one proposed-changes entry per stored edit-tool call. |
| AgentUtils.TableFacts | backend/agent/utils.py:6-15 | The eight characters are distinct. The placeholders are distinct, eight characters long and opened by `[` with no other `[`, and spelled without any mapped character. |
| AgentUtils.ConvertToPlaceholders | backend/agent/utils.py:18-24 | The loop of replacements produces the per-character encoding, and the result contains none of the mapped characters. |
| AgentUtils.EncodedHasNoMapped | backend/agent/utils.py:18-24 | The encoded text contains none of the eight mapped characters. |
| AgentUtils.ToStepsEncode | backend/agent/utils.py:22-23 | The eight sequential `replace` passes equal the per-character encoding. |
| AgentUtils.ConvertFromPlaceholders | backend/agent/utils.py:27-31 | The loop equals the sequential restore passes, and it undoes the encoding of any text with no placeholder in it. |
| AgentUtils.RoundTrip | backend/agent/utils.py:18-31 | Restoring an encoded text gives back the original whenever the original contained no placeholder spelling. |
| AgentUtils.LiteralPlaceholderNotPreserved | backend/agent/utils.py:18-31 | Without that condition the round trip fails: a literal "[u+000D]" comes back as a carriage return. |
| AgentUtils.RestoreStep | backend/agent/utils.py:29-30 | Each restore pass turns back exactly the characters of its entry. |
| AgentUtils.RemoveThinkingTags | backend/agent/utils.py:34-40 | Text missing either tag is returned unchanged. |
| AgentUtils.ClosingFirstRepeats | backend/agent/utils.py:36-39 | When the closing tag comes first, the text between the tags is duplicated, not removed. |
| AgentUtils.RemoveThinkingBlock | backend/agent/utils.py:34-40 | The corrected removal never lengthens the text. |
| AgentUtils.BlockRemoved | backend/agent/utils.py:34-40 | Text with no opening tag followed by a closing tag is unchanged. Otherwise exactly one block, from an opening tag to the end of a later closing tag, is removed. |
| AgentUtils.AgreesWhenOrdered | backend/agent/utils.py:36-39 | When the tags come in order, the code as written removes the same block as the corrected version. |
| AgentManager.Agent.constructor | backend/agent/manager.py:31-39 | A new agent has the given model and session. |
| AgentManager.AgentCache.constructor | backend/agent/manager.py:10 | The cache starts empty and valid. |
| AgentManager.AgentCache.GetOrCreateAgent | backend/agent/manager.py:13-41 | A cached session gets back its own agent, with the model swapped in place only when the id changed. A new session gets a fresh agent. The cache maps the session to the agent and the requested id, and stays valid. No other agent changes. |
| AgentManager.AgentCache.EvictAgent | backend/agent/manager.py:44-47 | The session's entry is removed if present, and every other entry stays. |

## Left out

- Logging (`console.log`, the debug paragraph listings, the execution-order log) is not
  modelled: it has no effect on the document or the state.
- The `replace` and `format_italic` handlers are not part of this model. The engine receives
  them as function parameters (`Engine.External`), so their cases are dispatched but their
  effects are unconstrained. `Host.WordDocument.Assign` puts such an unconstrained result in
  place; it promises only the new state.
- DeleteAction.DeleteParagraph and Host.WordDocument.Delete: deleting by a paragraph key empties
  the paragraph and keeps it, with its handle, in the body, so the flat paragraph indices do not
  shift. An untracked Word `delete()` removes the paragraph, and later paragraph keys then name
  the paragraph after it; under change tracking the paragraph stays as a tracked deletion.
- Resolver.Narrow: an empty `find` in `withinPara` has no occurrences in the model and fails
  with the not-found message. Word's `search("")` raises an error of its own, which is not
  modelled.
- Actions.Action: `rowCount` and `columnCount` are natural numbers. A negative count, which the
  `create_table` handler passes straight to `insertTable`, cannot be represented, and Word's
  rejection of it is not modelled.
- CellKeys.CountersTrack, CellKeys.CellKeyResolves and CellKeys.MappingKeysResolve assume what
  Word guarantees of a body: two tables are parted by a paragraph (`Separated`) and every table,
  row and cell holds at least one paragraph (`TablesFilled`). Paragraph keys also need unique
  handles (`HandlesUnique`).
- Resolver.ResolvedInRange and Resolver.TargetParagraphExists state the text facts only for
  unique handles (`HandlesUnique`). A cell key reads its paragraph's own text, while a handle
  reads the first paragraph that carries it, so the two agree only when handles are unique.
- `switchToSimpleMarkupMode`, `getSelectedText` and `navigateToParagraph` are left out. They
  change the view or read the selection, not the document.
- Change tracking: tracked edits are modelled as applied directly. Word's revision marks and
  the accept/reject of revisions are not modelled, only the tracking-mode setting.
- The `\nAction: ...` JSON suffix that handlers append to their error messages is left out.
  Errors carry the handler's message without it.
- Engine.ErrorLine: `toUpperCase` is modelled on ASCII letters only, because action names
  are ASCII identifiers.
- Word's search options are reduced to case-sensitive literal matching (`matchCase`).
  Wildcards, whole-word matching and Word's own text normalisation are not modelled.
- The body text is modelled as the paragraph texts joined by "\r", which is how Word reports
  `body.text`. Field codes, content controls and other non-paragraph content are left out.
- `parseInt` is modelled on digit runs as exact natural numbers. Precision loss past 2^53 is
  not modelled.
- InsertRowAction.ExecuteInsertRow: an empty `rowData` is modelled as inserting no rows, and
  a row of `rowData` shorter than the table is filled with empty cells. What Word's `insertRows`
  does in those cases is not documented in the source.
- Nested tables are not modelled: a cell holds paragraphs only.
  CreateTableAction.ExecuteCreateTable therefore reports a failure on a `{d}.p{n}` key that
  names a paragraph inside a table cell, where the source calls `insertTable(..., "After", ...)`
  on that paragraph and Word places the new table.
- Ranges.AppendText and Ranges.PrependText (and so Host.WordDocument.InsertTextAtEnd and
  InsertTextAtStart): inserted text is unformatted. Word's `insertText` with "End" or "Start"
  takes the formatting of the neighbouring run.
- Actions.Action: `loc` is a string, and a missing `loc` is modelled as "". In the source, an
  action with a `comment` and no `loc` fails in `loc.match` with a `TypeError` before dispatch.
  The model fails there too and leaves the body as it was. Only the error text differs: the
  model reports the invalid-format message for "".
- RangeActions.ParagraphKeyTarget and the other paragraph-key lemmas assume that paragraph
  handles are unique in the body (`HandlesUnique`). Word guarantees this; stale handles
  after an edit are not modelled.
- The `"Unknown error"` branch of the review panel's `catch` is not modelled. The engine
  always throws an `Error`, so the branch cannot be reached in the model.
- A chat message's `content` is modelled as the text of its single block.
- Loading a stored session into the chat panel, the network request of `handleSendMessage`
  and its `catch` path are left out. The model stops at the point where the request is sent.
- `JSON.parse` of a stored tool call's actions is a parameter of `SessionUtils` (`parse`). It
  returns a parse failure, an array of some length, or another value.
- `convert_to_placeholders` on `None` is not modelled. Text is always a string, and the empty
  string returns "" as in the code.
- The construction of an agent (system prompt, tool list, `FileSessionManager`,
  `create_litellm_model`) is left out. An agent is known by its model id and session.
- `backend/api/invoke.py` applies `remove_thinking_tags` and `convert_from_placeholders` to
  each streamed chunk separately. That file is not part of this model; the helpers are
  modelled on whole strings.
- Concurrency between the chat panel, the review panel and Word (the `async` interleavings)
  is not modelled. Each handler runs to completion.

## Findings

| source | as written | input that shows it | evidently intended | confidence | as-written member | corrected member |
|---|---|---|---|---|---|---|
| frontend/src/taskpane/components/ChatMessageList.tsx:100 | The review panel calls `onApply([], all, true)` on a stale document, and the chat panel's `handleApplyModifications(applied, rejected, failedIndices, errorMessages, hashMismatch)` receives `true` as `failedIndices`, leaving `hashMismatch` false | a batch applied after the document was edited, so that the fingerprints differ | the record's `hashMismatch` is set exactly when the panel found the document changed | not executed | Chat.MismatchRecordedAsWired | Chat.MismatchRecordedAsIntended |
| backend/agent/utils.py:36-39 | `remove_thinking_tags` cuts from the first `<thinking>` to the end of the first `</thinking>` wherever they are, so when the closing tag comes first the slices overlap | `"</thinking>x<thinking>"` becomes `"</thinking>xx<thinking>"` | remove the first `<thinking>` block, from an opening tag through the first closing tag after it, and never lengthen the text | not executed | AgentUtils.ClosingFirstRepeats | AgentUtils.BlockRemoved |
