/** `executeDeleteTable`: removes a whole table, addressed as `{docPosition}.t{table}`. */
module DeleteTableAction {
  import opened Wrappers
  import opened LocationGrammar
  import opened Document
  import opened Resolver
  import opened Host
  import opened Actions

  const Operation: string := "Delete table"

  function InvalidTableLocation(loc: string): string {
    "Invalid table location format: " + loc + ". Expected format: {docPosition}.t{n}"
  }

  /** Nothing for an empty `loc`; otherwise the parse, the range check and `table.delete()`. */
  function DeleteTable(d: Doc, a: Action): Result<Doc> {
    PatternCaptureCounts();
    if a.loc == "" then Success(d)
    else match Match(TablePattern, a.loc)
      case None => Failure(OperationFailed(Operation, InvalidTableLocation(a.loc)))
      case Some(nums) =>
        var t := nums[0];
        var tables := Tables(d.body);
        if t >= |tables| then Failure(OperationFailed(Operation, TableOutOfRange(t, |tables|)))
        else Success(d.(body := ReplaceTable(d.body, t, None)))
  }

  method ExecuteDeleteTable(word: WordDocument, action: Action, paragraphs: ParagraphCollection) returns (outcome: Outcome)
    modifies word
    ensures Completes(DeleteTable(old(word.State()), action), old(word.State()), word.State(), outcome)
    ensures word.changeTrackingMode == old(word.changeTrackingMode)
  {
    PatternCaptureCounts();
    var loc := action.loc;
    if loc == "" {
      return Pass;
    }
    var tableMatch := Match(TablePattern, loc);
    if tableMatch.None? {
      return Fail(OperationFailed(Operation, InvalidTableLocation(loc)));
    }
    var tableIndex := tableMatch.value[0];
    var tables := Tables(word.body);
    if tableIndex >= |tables| {
      return Fail(OperationFailed(Operation, TableOutOfRange(tableIndex, |tables|)));
    }
    word.DeleteTable(tableIndex);
    outcome := Pass;
  }

  /** On the key `{docPosition}.t{t}` the handler deletes table `t` whatever the docPosition is. */
  lemma DeleteTableByKey(d: Doc, a: Action, docPos: nat, t: nat)
    requires a.loc == TableKey(docPos, t)
    ensures var tables := Tables(d.body);
      DeleteTable(d, a) ==
        if t >= |tables| then Failure(OperationFailed(Operation, TableOutOfRange(t, |tables|)))
        else Success(d.(body := ReplaceTable(d.body, t, None)))
  {
    TableKeyMatches(docPos, t);
  }

  /** A successful delete takes exactly table `t` out of the table list and keeps the
      paragraphs outside tables, the comments and the handles. */
  lemma DeleteTableEffect(d: Doc, a: Action, docPos: nat, t: nat)
    requires a.loc == TableKey(docPos, t) && t < |Tables(d.body)|
    ensures DeleteTable(d, a).Success?
    ensures var after := DeleteTable(d, a).value;
      Tables(after.body) == Tables(d.body)[..t] + Tables(d.body)[t + 1..]
      && Plains(after.body) == Plains(d.body)
      && (Separated(d.body) ==> Separated(after.body))
      && after.comments == d.comments && after.nextId == d.nextId
  {
    DeleteTableByKey(d, a, docPos, t);
    ReplaceTableEffect(d.body, t, None);
    assert Tables(d.body)[..t] + [] == Tables(d.body)[..t];
  }
}
