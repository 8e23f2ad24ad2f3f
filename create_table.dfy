/** `executeCreateTable`: inserts a new table after a paragraph, addressed as `{docPosition}.p{n}`. */
module CreateTableAction {
  import opened Wrappers
  import opened LocationGrammar
  import opened Document
  import opened Resolver
  import opened Host
  import opened Actions

  const Operation: string := "Create table"

  /** Thrown before the handler's `try`, so it reaches the engine unwrapped. */
  const MissingFields: string := "create_table requires loc, rowCount, and columnCount"

  /** What this model gives for a target paragraph inside a table cell (see README). */
  const NestedTable: string := "a table inside a table cell is not part of this model"

  function InvalidParagraphLocation(loc: string): string {
    "Invalid paragraph location format: " + loc + ". Expected format: {docPosition}.p{n}"
  }

  /** The new document or the error, and what the paragraph collection holds afterwards: the
      handler reloads it once the key has parsed. */
  function CreateTable(d: Doc, items: seq<nat>, a: Action): (Result<Doc>, seq<nat>) {
    PatternCaptureCounts();
    if a.loc == "" || a.rowCount == 0 || a.columnCount == 0 then (Failure(MissingFields), items)
    else match Match(ParagraphPattern, a.loc)
      case None => (Failure(OperationFailed(Operation, InvalidParagraphLocation(a.loc))), items)
      case Some(nums) =>
        var n := nums[0];
        var loaded := FlatIds(d.body);
        if n >= |loaded| then (Failure(OperationFailed(Operation, ParagraphOutOfRange(n, |loaded|))), loaded)
        else match PlainBlockOf(d.body, n)
          case None => (Failure(OperationFailed(Operation, NestedTable)), loaded)
          case Some(k) =>
            PlainBlockOfFlat(d.body, n);
            (Success(InsertTable(d, k, a.rowCount, a.columnCount, a.values)), loaded)
  }

  method ExecuteCreateTable(word: WordDocument, action: Action, paragraphs: ParagraphCollection) returns (outcome: Outcome)
    modifies word, paragraphs
    ensures var (r, items) := CreateTable(old(word.State()), old(paragraphs.items), action);
      Completes(r, old(word.State()), word.State(), outcome) && paragraphs.items == items
    ensures word.changeTrackingMode == old(word.changeTrackingMode)
  {
    PatternCaptureCounts();
    var loc, rowCount, columnCount := action.loc, action.rowCount, action.columnCount;
    if loc == "" || rowCount == 0 || columnCount == 0 {
      return Fail(MissingFields);
    }
    var paraMatch := Match(ParagraphPattern, loc);
    if paraMatch.None? {
      return Fail(OperationFailed(Operation, InvalidParagraphLocation(loc)));
    }
    var paraIndex := paraMatch.value[0];
    paragraphs.Load(word);
    if paraIndex >= |paragraphs.items| {
      return Fail(OperationFailed(Operation, ParagraphOutOfRange(paraIndex, |paragraphs.items|)));
    }
    var block := PlainBlockOf(word.body, paraIndex);
    if block.None? {
      return Fail(OperationFailed(Operation, NestedTable));
    }
    PlainBlockOfFlat(word.body, paraIndex);
    word.InsertTableAfterBlock(block.value, rowCount, columnCount, action.values);
    outcome := Pass;
  }

  /** On the key `{docPosition}.p{n}` with both counts given, the collection is reloaded, an
      index past the paragraphs fails, and a paragraph outside tables gets the table right
      after its own block, whatever the docPosition is. */
  lemma CreateTableByKey(d: Doc, items: seq<nat>, a: Action, docPos: nat, n: nat)
    requires a.loc == ParagraphKey(docPos, n) && a.rowCount > 0 && a.columnCount > 0
    ensures CreateTable(d, items, a).1 == FlatIds(d.body)
    ensures n >= |Flat(d.body)| ==>
      CreateTable(d, items, a).0 == Failure(OperationFailed(Operation, ParagraphOutOfRange(n, |Flat(d.body)|)))
    ensures n < |Flat(d.body)| && Flat(d.body)[n].cell.None? ==>
      var k := PlainBlockOf(d.body, n);
      k.Some? && k.value < |d.body| && d.body[k.value] == Plain(Flat(d.body)[n].para)
      && CreateTable(d, items, a).0 == Success(InsertTable(d, k.value, a.rowCount, a.columnCount, a.values))
  {
    ParagraphKeyMatches(docPos, n);
    PlainBlockOfFlat(d.body, n);
  }

  /** A missing key or count fails before anything is loaded. */
  lemma CreateTableMissingFields(d: Doc, items: seq<nat>, a: Action)
    requires a.loc == "" || a.rowCount == 0 || a.columnCount == 0
    ensures CreateTable(d, items, a) == (Failure(MissingFields), items)
  {
  }

  /** Inserting a `rowCount` by `columnCount` table after the paragraph of block `k`: the block
      right after it is the new table, filled from `values` with fresh handles; it joins the
      table list after the tables before `k`, and tables stay apart. */
  lemma InsertTableEffect(d: Doc, k: nat, rowCount: nat, columnCount: nat, values: seq<seq<string>>)
    requires k < |d.body| && d.body[k].Plain?
    ensures var after := InsertTable(d, k, rowCount, columnCount, values);
      var rows := NewRows(rowCount, columnCount, values, d.nextId);
      after.body[..k + 1] == d.body[..k + 1] && after.body[k + 1] == Table(rows)
      && Tables(after.body) == Tables(d.body[..k + 1]) + [rows] + Tables(d.body[k + 1..])
      && Tables(d.body) == Tables(d.body[..k + 1]) + Tables(d.body[k + 1..])
      && (Separated(d.body) ==> Separated(after.body))
      && after.comments == d.comments
    ensures var rows := NewRows(rowCount, columnCount, values, d.nextId);
      |rows| == rowCount
      && (forall i :: 0 <= i < rowCount ==> |rows[i]| == columnCount)
      && (forall i, j :: 0 <= i < rowCount && 0 <= j < columnCount ==>
            |rows[i][j]| == 1 && Text(rows[i][j][0]) == ValueAt(values, i, j)
            && d.nextId <= rows[i][j][0].id < InsertTable(d, k, rowCount, columnCount, values).nextId)
  {
    var rows: seq<Row> := NewRows(rowCount, columnCount, values, d.nextId);
    var padId := d.nextId + rowCount * columnCount;
    var body' := InsertTableAfter(d.body, k, rows, padId);
    assert body'[..k + 1] == d.body[..k + 1];
    assert body'[k + 1] == Table(rows);
    InsertTableAfterTables(d.body, k, rows, padId);
    if Separated(d.body) {
      InsertTableAfterSeparated(d.body, k, rows, padId);
    }
    NewRowsHandles(rowCount, columnCount, values, d.nextId);
  }
}
