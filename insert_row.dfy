/** `executeInsertRow`: adds rows next to a table row, addressed as `t{table}.r{row}` (before it)
    or `t{table}.r{row}.after` (after it), filled from `rowData`. */
module InsertRowAction {
  import opened Wrappers
  import opened Strings
  import opened LocationGrammar
  import opened Document
  import opened Resolver
  import opened Host
  import opened Actions

  const Operation: string := "Insert row"

  function InvalidRowLocation(loc: string): string {
    "Invalid row location format: " + loc + ". Expected format: t{n}.r{m} or t{n}.r{m}.after"
  }

  /** `rowData?.length ?? 1`: one empty row when no data is given. */
  function RowCount(a: Action): nat {
    match a.rowData case Some(rows) => |rows| case None => 1
  }

  function RowValues(a: Action): seq<seq<string>> {
    match a.rowData case Some(rows) => rows case None => []
  }

  /** The key's table, row and side: the plain form is tried first, then the `.after` form. */
  function ParseRowLocation(loc: string): (r: Option<(nat, nat, InsertLocation)>)
  {
    PatternCaptureCounts();
    match Match(BareRowPattern, loc)
    case Some(nums) => Some((nums[0], nums[1], Before))
    case None =>
      match Match(BareRowAfterPattern, loc)
      case Some(nums) => Some((nums[0], nums[1], After))
      case None => None
  }

  /** Nothing for an empty `loc`; otherwise the parse, the two range checks and `insertRows`. */
  function InsertRow(d: Doc, a: Action): Result<Doc> {
    if a.loc == "" then Success(d)
    else match ParseRowLocation(a.loc)
      case None => Failure(OperationFailed(Operation, InvalidRowLocation(a.loc)))
      case Some((t, r, location)) =>
        var tables := Tables(d.body);
        if t >= |tables| then Failure(OperationFailed(Operation, TableOutOfRange(t, |tables|)))
        else if r >= |tables[t]| then Failure(OperationFailed(Operation, RowOutOfRange(r, t, |tables[t]|)))
        else Success(InsertRows(d, t, r, location, RowCount(a), RowValues(a)))
  }

  method ExecuteInsertRow(word: WordDocument, action: Action, paragraphs: ParagraphCollection) returns (outcome: Outcome)
    modifies word
    ensures Completes(InsertRow(old(word.State()), action), old(word.State()), word.State(), outcome)
    ensures word.changeTrackingMode == old(word.changeTrackingMode)
  {
    PatternCaptureCounts();
    var loc := action.loc;
    if loc == "" {
      return Pass;
    }
    var beforeMatch := Match(BareRowPattern, loc);
    var afterMatch := Match(BareRowAfterPattern, loc);
    var tableIndex: nat, rowIndex: nat, insertLocation: InsertLocation;
    if beforeMatch.Some? {
      tableIndex, rowIndex, insertLocation := beforeMatch.value[0], beforeMatch.value[1], Before;
    } else if afterMatch.Some? {
      tableIndex, rowIndex, insertLocation := afterMatch.value[0], afterMatch.value[1], After;
    } else {
      return Fail(OperationFailed(Operation, InvalidRowLocation(loc)));
    }
    var tables := Tables(word.body);
    if tableIndex >= |tables| {
      return Fail(OperationFailed(Operation, TableOutOfRange(tableIndex, |tables|)));
    }
    var rowCount := |tables[tableIndex]|;
    if rowIndex >= rowCount {
      return Fail(OperationFailed(Operation, RowOutOfRange(rowIndex, tableIndex, rowCount)));
    }
    word.InsertRowsNextTo(tableIndex, rowIndex, insertLocation, RowCount(action), RowValues(action));
    outcome := Pass;
  }

  /** `t{t}.r{r}` inserts before row `r` and `t{t}.r{r}.after` after it; nothing else parses. */
  lemma ParseRowLocationKeys(t: nat, r: nat)
    ensures ParseRowLocation(BareRowKey(t, r)) == Some((t, r, Before))
    ensures ParseRowLocation(BareRowAfterKey(t, r)) == Some((t, r, After))
  {
    BareRowKeyMatches(t, r);
    BareRowAfterKeyMatches(t, r);
    BareRowFormsExclusive(BareRowAfterKey(t, r));
  }

  /** The keys the document index hands out start with a docPosition, and the handler refuses every one of them. */
  lemma InsertRowRejectsPrefixed(d: Doc, a: Action)
    requires |a.loc| > 0 && IsDigit(a.loc[0])
    ensures InsertRow(d, a) == Failure(OperationFailed(Operation, InvalidRowLocation(a.loc)))
  {
    PrefixedKeysAreNotBare(a.loc);
  }

  /** Inserting rows next to row `r` of table `t`: that table gets exactly the new rows at the
      chosen side, each as wide as row `r`, filled from `values` row by row and carrying handles
      no paragraph had; the other tables and the paragraphs outside tables stay, and tables stay apart. */
  lemma InsertRowsEffect(d: Doc, t: nat, r: nat, location: InsertLocation, count: nat, values: seq<seq<string>>)
    requires t < |Tables(d.body)| && r < |Tables(d.body)[t]|
    ensures var after := InsertRows(d, t, r, location, count, values);
      var rows := Tables(d.body)[t];
      var at := if location == Before then r else r + 1;
      var added := AddedRows(d.body, t, r, count, values, d.nextId);
      Tables(after.body) == Tables(d.body)[..t] + [rows[..at] + added + rows[at..]] + Tables(d.body)[t + 1..]
      && Plains(after.body) == Plains(d.body)
      && (Separated(d.body) ==> Separated(after.body))
      && after.comments == d.comments
      && after.nextId == d.nextId + count * |rows[r]|
    ensures var added := AddedRows(d.body, t, r, count, values, d.nextId);
      var width := |Tables(d.body)[t][r]|;
      |added| == count
      && (forall i :: 0 <= i < count ==> |added[i]| == width)
      && (forall i, j :: 0 <= i < count && 0 <= j < width ==>
            |added[i][j]| == 1 && Text(added[i][j][0]) == ValueAt(values, i, j)
            && d.nextId <= added[i][j][0].id < d.nextId + count * width)
  {
    var rows := Tables(d.body)[t];
    var at := if location == Before then r else r + 1;
    var added: seq<Row> := AddedRows(d.body, t, r, count, values, d.nextId);
    ReplaceTableEffect(d.body, t, Some(rows[..at] + added + rows[at..]));
    NewRowsHandles(count, |rows[r]|, values, d.nextId);
  }
}
