/** `createParagraphMapping` and `getWordDocumentContent` (taskpane.ts): one pass over the
    flat paragraph list that gives every paragraph a location key. */
module Indexer {
  import opened Wrappers
  import opened Strings
  import opened LocationGrammar
  import opened Document

  /** One entry of `paragraphMapping`: a key and the paragraph's text. */
  datatype Entry = Entry(key: string, text: string)

  /** Paragraph `k` is the first one after a table: this is where the table counter moves on. */
  predicate IsExit(fs: seq<FlatPara>, k: nat) {
    0 < k < |fs| && fs[k - 1].cell.Some? && fs[k].cell.None?
  }

  /** The table counter when the loop reaches paragraph `n`: the table-to-paragraph
      transitions among the paragraphs before it. */
  function Exits(fs: seq<FlatPara>, n: nat): nat
    requires n <= |fs|
  {
    if n == 0 then 0 else Exits(fs, n - 1) + (if IsExit(fs, n - 1) then 1 else 0)
  }

  /** Paragraph `j` sits in cell (`row`, `col`) of the table the counter numbers `t`. */
  predicate InCell(fs: seq<FlatPara>, j: nat, t: nat, row: nat, col: nat)
    requires j < |fs|
  {
    fs[j].cell.Some? && Exits(fs, j) == t && fs[j].cell.value.row == row && fs[j].cell.value.col == col
  }

  /** How many paragraphs before `n` sit in that same cell: the cell's counter when the loop reaches `n`. */
  function InCellBefore(fs: seq<FlatPara>, n: nat, t: nat, row: nat, col: nat): nat
    requires n <= |fs|
  {
    if n == 0 then 0 else InCellBefore(fs, n - 1, t, row, col) + (if InCell(fs, n - 1, t, row, col) then 1 else 0)
  }

  /** The key the indexer gives paragraph `i`: `i.p<i>` outside tables and
      `i.t<T>.r<row>.c<col>.p<k>` in a cell, its docPosition always being `i`. */
  function KeyOf(fs: seq<FlatPara>, i: nat): string
    requires i < |fs|
  {
    match fs[i].cell
    case None => ParagraphKey(i, i)
    case Some(c) =>
      var t := Exits(fs, i);
      TableCellKey(i, t, c.row, c.col, InCellBefore(fs, i, t, c.row, c.col))
  }

  /** The entries the indexer produces, in flat order. */
  function Mapping(fs: seq<FlatPara>): (m: seq<Entry>)
    ensures |m| == |fs|
    ensures forall i :: 0 <= i < |fs| ==> m[i] == Entry(KeyOf(fs, i), Text(fs[i].para))
  {
    seq(|fs|, i requires 0 <= i < |fs| => Entry(KeyOf(fs, i), Text(fs[i].para)))
  }

  /** `cellParaCounters.get(key) || 0`. */
  function Lookup(counters: map<string, nat>, key: string): nat {
    if key in counters then counters[key] else 0
  }

  /** `record[key] = text` on a record whose entries keep insertion order: an existing key is
      overwritten where it stands, a new one goes last. */
  function Put(entries: seq<Entry>, key: string, text: string): (r: seq<Entry>)
    ensures (forall j :: 0 <= j < |entries| ==> entries[j].key != key) ==> r == entries + [Entry(key, text)]
  {
    if entries == [] then [Entry(key, text)]
    else if entries[0].key == key then [Entry(key, text)] + entries[1..]
    else
      assert entries == [entries[0]] + entries[1..];
      [entries[0]] + Put(entries[1..], key, text)
  }

  // ---------------------------------------------------------------------------
  // Facts the loop needs

  lemma {:induction false} ExitsMonotone(fs: seq<FlatPara>, j: nat, n: nat)
    requires j <= n <= |fs|
    ensures Exits(fs, j) <= Exits(fs, n)
    decreases n - j
  {
    if j < n {
      ExitsMonotone(fs, j, n - 1);
    }
  }

  /** No paragraph before `n` is counted for a table the counter has not reached yet. */
  lemma {:induction false} InCellBeforeLater(fs: seq<FlatPara>, n: nat, t: nat, row: nat, col: nat)
    requires n <= |fs| && t > Exits(fs, n)
    ensures InCellBefore(fs, n, t, row, col) == 0
  {
    if n > 0 {
      ExitsMonotone(fs, n - 1, n);
      InCellBeforeLater(fs, n - 1, t, row, col);
    }
  }

  /** Every key leads with the index of its paragraph. */
  lemma KeyOfLeading(fs: seq<FlatPara>, i: nat)
    requires i < |fs|
    ensures LeadingDocPosition(KeyOf(fs, i)) == i
  {
    match fs[i].cell
    case None => KeyLeadingDocPosition(i, 0, 0, 0, 0, i);
    case Some(c) =>
      var t := Exits(fs, i);
      KeyLeadingDocPosition(i, t, c.row, c.col, InCellBefore(fs, i, t, c.row, c.col), i);
  }

  /** The indexer never gives two paragraphs the same key. */
  lemma KeysDistinct(fs: seq<FlatPara>, i: nat, j: nat)
    requires i < |fs| && j < |fs| && i != j
    ensures KeyOf(fs, i) != KeyOf(fs, j)
  {
    KeyOfLeading(fs, i);
    KeyOfLeading(fs, j);
  }

  /** Every key is of the regular form or the table-cell form, as its paragraph is outside or
      inside a table, and reads back the numbers it was built from. */
  lemma KeyOfMatches(fs: seq<FlatPara>, i: nat)
    requires i < |fs|
    ensures fs[i].cell.None? ==> Match(ParagraphPattern, KeyOf(fs, i)) == Some([i])
    ensures fs[i].cell.Some? ==>
      var c, t := fs[i].cell.value, Exits(fs, i);
      Match(TableCellPattern, KeyOf(fs, i)) == Some([t, c.row, c.col, InCellBefore(fs, i, t, c.row, c.col)])
  {
    match fs[i].cell
    case None => ParagraphKeyMatches(i, i);
    case Some(c) =>
      var t := Exits(fs, i);
      TableCellKeyMatches(i, t, c.row, c.col, InCellBefore(fs, i, t, c.row, c.col));
  }

  /** The per-cell counters agree with the paragraphs before `n`: a cell of table `t` has
      counted its earlier paragraphs, and only the current table has counters at all. */
  ghost predicate CountersAgree(fs: seq<FlatPara>, n: nat, counters: map<string, nat>, current: nat)
    requires n <= |fs|
  {
    forall t, row, col :: Lookup(counters, CellCounterKey(t, row, col))
                        == if t == current then InCellBefore(fs, n, t, row, col) else 0
  }

  /** Leaving a table: the counters start again, empty, for the next table. */
  lemma CountersAfterExit(fs: seq<FlatPara>, i: nat)
    requires i < |fs| && IsExit(fs, i)
    ensures Exits(fs, i + 1) == Exits(fs, i) + 1
    ensures CountersAgree(fs, i + 1, map[], Exits(fs, i) + 1)
  {
    var n, t := i + 1, Exits(fs, i) + 1;
    forall row: nat, col: nat ensures InCellBefore(fs, n, t, row, col) == 0 {
      InCellBeforeLater(fs, i, t, row, col);
    }
  }

  /** A paragraph outside tables that does not leave one changes no counter. */
  lemma CountersAfterPlain(fs: seq<FlatPara>, i: nat, counters: map<string, nat>)
    requires i < |fs| && fs[i].cell.None? && !IsExit(fs, i)
    requires CountersAgree(fs, i, counters, Exits(fs, i))
    ensures Exits(fs, i + 1) == Exits(fs, i)
    ensures CountersAgree(fs, i + 1, counters, Exits(fs, i))
  {
  }

  /** A cell paragraph moves its own cell's counter on by one and no other. */
  lemma CountersAfterCell(fs: seq<FlatPara>, i: nat, counters: map<string, nat>)
    requires i < |fs| && fs[i].cell.Some?
    requires CountersAgree(fs, i, counters, Exits(fs, i))
    ensures var c, t := fs[i].cell.value, Exits(fs, i);
      var key := CellCounterKey(t, c.row, c.col);
      Lookup(counters, key) == InCellBefore(fs, i, t, c.row, c.col) &&
      Exits(fs, i + 1) == t &&
      CountersAgree(fs, i + 1, counters[key := Lookup(counters, key) + 1], t)
  {
    var c, t := fs[i].cell.value, Exits(fs, i);
    var key := CellCounterKey(t, c.row, c.col);
    var next := counters[key := Lookup(counters, key) + 1];
    forall t', row, col
      ensures Lookup(next, CellCounterKey(t', row, col)) == if t' == t then InCellBefore(fs, i + 1, t', row, col) else 0
    {
      if CellCounterKey(t', row, col) == key {
        CellCounterKeyInjective(t', row, col, t, c.row, c.col);
      }
    }
  }

  /** Recording paragraph `i` under its key extends the mapping by its entry. */
  lemma MappingStep(fs: seq<FlatPara>, i: nat, entries: seq<Entry>)
    requires i < |fs| && entries == Mapping(fs)[..i]
    ensures Put(entries, KeyOf(fs, i), Text(fs[i].para)) == Mapping(fs)[..i + 1]
  {
    forall j | 0 <= j < i ensures entries[j].key != KeyOf(fs, i) {
      KeysDistinct(fs, j, i);
    }
    assert Mapping(fs)[..i + 1] == Mapping(fs)[..i] + [Mapping(fs)[i]];
  }

  // ---------------------------------------------------------------------------
  // The loop

  /** The source's loop over `paragraphs.items`, with the host's `parentTableCellOrNullObject`
      read from each flat paragraph. */
  method CreateParagraphMapping(fs: seq<FlatPara>) returns (paragraphMapping: seq<Entry>)
    ensures paragraphMapping == Mapping(fs)
  {
    paragraphMapping := [];
    var docPosition := 0;
    var tableCounter := 0;
    var insideTable := false;
    var cellParaCounters: map<string, nat> := map[];
    for i := 0 to |fs|
      invariant docPosition == i
      invariant tableCounter == Exits(fs, i)
      invariant insideTable == (i > 0 && fs[i - 1].cell.Some?)
      invariant CountersAgree(fs, i, cellParaCounters, tableCounter)
      invariant paragraphMapping == Mapping(fs)[..i]
    {
      var para := fs[i];
      MappingStep(fs, i, paragraphMapping);
      if para.cell.None? {
        if insideTable {
          CountersAfterExit(fs, i);
          tableCounter := tableCounter + 1;
          cellParaCounters := map[];
          insideTable := false;
        } else {
          CountersAfterPlain(fs, i, cellParaCounters);
        }
        paragraphMapping := Put(paragraphMapping, ParagraphKey(docPosition, i), Text(para.para));
        docPosition := docPosition + 1;
      } else {
        if !insideTable {
          insideTable := true;
        }
        CountersAfterCell(fs, i, cellParaCounters);
        var rowIndex := para.cell.value.row;
        var cellIndex := para.cell.value.col;
        var cellKey := CellCounterKey(tableCounter, rowIndex, cellIndex);
        var paraIndexInCell := Lookup(cellParaCounters, cellKey);
        cellParaCounters := cellParaCounters[cellKey := paraIndexInCell + 1];
        CellKeyFromCounterKey(docPosition, tableCounter, rowIndex, cellIndex, paraIndexInCell);
        var key := NatToDecimal(docPosition) + ['.'] + cellKey + LevelKey('p', paraIndexInCell);
        paragraphMapping := Put(paragraphMapping, key, Text(para.para));
        docPosition := docPosition + 1;
      }
    }
    assert Mapping(fs)[..|fs|] == Mapping(fs);
    // The counter is moved on once more after a final table; nothing reads it afterwards.
    if insideTable {
      tableCounter := tableCounter + 1;
    }
  }

  /** `getWordDocumentContent`: the entries as `key: text` lines joined by newlines. */
  function DocumentContent(fs: seq<FlatPara>): string {
    var m := Mapping(fs);
    Join(seq(|m|, i requires 0 <= i < |m| => m[i].key + ": " + m[i].text), "\n")
  }

  /** `isDocumentEmpty`: the body text is empty or only white space. */
  function IsDocumentEmpty(bodyText: string): (empty: bool)
    ensures empty <==> forall i :: 0 <= i < |bodyText| ==> IsJsWhiteSpace(bodyText[i])
  {
    TrimEmptyIffBlank(bodyText);
    bodyText == "" || |Trim(bodyText)| == 0
  }

  /** `body.text`: the paragraph texts, separated by the carriage return Word ends a paragraph with. */
  function BodyText(fs: seq<FlatPara>): string {
    Join(seq(|fs|, i requires 0 <= i < |fs| => Text(fs[i].para)), "\r")
  }

  /** The document is empty exactly when every paragraph is blank. */
  lemma EmptyIffAllBlank(fs: seq<FlatPara>)
    ensures IsDocumentEmpty(BodyText(fs)) <==> forall i :: 0 <= i < |fs| ==> Blank(Text(fs[i].para))
  {
    var texts := seq(|fs|, i requires 0 <= i < |fs| => Text(fs[i].para));
    JoinBlank(texts, "\r");
    assert forall i :: 0 <= i < |fs| ==> texts[i] == Text(fs[i].para);
  }

  /** What both the send and the apply step fingerprint: "" for an empty document, otherwise
      `getWordDocumentContent()`. */
  function Snapshot(fs: seq<FlatPara>): (content: string)
    ensures content == "" <==> IsDocumentEmpty(BodyText(fs))
  {
    if IsDocumentEmpty(BodyText(fs)) then "" else DocumentContent(fs)
  }
}
