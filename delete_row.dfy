/** `executeDeleteRow`: removes one row of one table, addressed as `t{table}.r{row}`. */
module DeleteRowAction {
  import opened Wrappers
  import opened Strings
  import opened LocationGrammar
  import opened Document
  import opened Resolver
  import opened Host
  import opened Actions

  const Operation: string := "Delete row"

  function InvalidRowLocation(loc: string): string {
    "Invalid row location format: " + loc + ". Expected format: t{tableIndex}.r{rowIndex}"
  }

  /** What the handler does to the document: nothing for an empty `loc`, otherwise the
      parse, the two range checks and `deleteRows(rowIndex, 1)`, every error wrapped. */
  function DeleteRow(d: Doc, a: Action): Result<Doc> {
    PatternCaptureCounts();
    if a.loc == "" then Success(d)
    else match Match(BareRowPattern, a.loc)
      case None => Failure(OperationFailed(Operation, InvalidRowLocation(a.loc)))
      case Some(nums) =>
        var t, r := nums[0], nums[1];
        var tables := Tables(d.body);
        if t >= |tables| then Failure(OperationFailed(Operation, TableOutOfRange(t, |tables|)))
        else if r >= |tables[t]| then Failure(OperationFailed(Operation, RowOutOfRange(r, t, |tables[t]|)))
        else Success(d.(body := RemoveRow(d.body, t, r)))
  }

  method ExecuteDeleteRow(word: WordDocument, action: Action, paragraphs: ParagraphCollection) returns (outcome: Outcome)
    modifies word
    ensures Completes(DeleteRow(old(word.State()), action), old(word.State()), word.State(), outcome)
    ensures word.changeTrackingMode == old(word.changeTrackingMode)
  {
    PatternCaptureCounts();
    var loc := action.loc;
    if loc == "" {
      return Pass;
    }
    var rowMatch := Match(BareRowPattern, loc);
    if rowMatch.None? {
      return Fail(OperationFailed(Operation, InvalidRowLocation(loc)));
    }
    var tableIndex, rowIndex := rowMatch.value[0], rowMatch.value[1];
    var tables := Tables(word.body);
    if tableIndex >= |tables| {
      return Fail(OperationFailed(Operation, TableOutOfRange(tableIndex, |tables|)));
    }
    var rowCount := |tables[tableIndex]|;
    if rowIndex >= rowCount {
      return Fail(OperationFailed(Operation, RowOutOfRange(rowIndex, tableIndex, rowCount)));
    }
    word.DeleteRows(tableIndex, rowIndex);
    outcome := Pass;
  }

  /** On the key `t{t}.r{r}` the handler checks the table, then the row, then deletes that row. */
  lemma DeleteRowByKey(d: Doc, a: Action, t: nat, r: nat)
    requires a.loc == BareRowKey(t, r)
    ensures var tables := Tables(d.body);
      DeleteRow(d, a) ==
        if t >= |tables| then Failure(OperationFailed(Operation, TableOutOfRange(t, |tables|)))
        else if r >= |tables[t]| then Failure(OperationFailed(Operation, RowOutOfRange(r, t, |tables[t]|)))
        else Success(d.(body := RemoveRow(d.body, t, r)))
  {
    BareRowKeyMatches(t, r);
  }

  /** The keys the document index hands out start with a docPosition, and the handler refuses every one of them. */
  lemma DeleteRowRejectsPrefixed(d: Doc, a: Action)
    requires |a.loc| > 0 && IsDigit(a.loc[0])
    ensures DeleteRow(d, a) == Failure(OperationFailed(Operation, InvalidRowLocation(a.loc)))
  {
    PrefixedKeysAreNotBare(a.loc);
  }

  /** Removing row `r` of table `t`: that table loses exactly that row (and goes when it was
      its only row), the other tables and the paragraphs outside tables stay, and tables stay apart. */
  lemma RemoveRowEffect(body: seq<Block>, t: nat, r: nat)
    requires t < |Tables(body)| && r < |Tables(body)[t]|
    ensures var rows := Tables(body)[t];
      var rest := rows[..r] + rows[r + 1..];
      Tables(RemoveRow(body, t, r))
        == Tables(body)[..t] + (if rest == [] then [] else [rest]) + Tables(body)[t + 1..]
    ensures Plains(RemoveRow(body, t, r)) == Plains(body)
    ensures Separated(body) ==> Separated(RemoveRow(body, t, r))
  {
    var rows := Tables(body)[t];
    var rest := rows[..r] + rows[r + 1..];
    ReplaceTableEffect(body, t, if rest == [] then None else Some(rest));
  }
}
