/** `resolveLocation` (taskpane.ts): from a location key, and optionally a text to find
    inside the paragraph it names, to the range an action works on. */
module Resolver {
  import opened Wrappers
  import opened Strings
  import opened LocationGrammar
  import opened Document
  import opened Ranges

  /** `withinPara`: narrow the paragraph to the `occurrence`-th match of `find`. */
  datatype Within = Within(find: string, occurrence: int)

  // ---------------------------------------------------------------------------
  // Search inside a paragraph

  /** The starts of the matches of `find` at or after `from`, found left to right, each match
      taken whole before the search goes on. */
  function OccurrencesFrom(text: string, find: string, from: nat): seq<nat>
    requires |find| > 0
    decreases |text| - from
  {
    if from + |find| > |text| then []
    else if OccursAt(text, find, from) then [from] + OccurrencesFrom(text, find, from + |find|)
    else OccurrencesFrom(text, find, from + 1)
  }

  /** Every start in `occ` is a match of `find` at or after `from`, and each starts at least
      the length of `find` after the one before it. */
  predicate MatchesInOrder(text: string, find: string, from: nat, occ: seq<nat>) {
    (forall j :: 0 <= j < |occ| ==> from <= occ[j] && OccursAt(text, find, occ[j]))
    && (forall j, k :: 0 <= j < k < |occ| ==> occ[j] + |find| <= occ[k])
  }

  /** The listed starts are matches, in order and without overlap. */
  lemma {:induction false} OccurrencesFromMatches(text: string, find: string, from: nat)
    requires |find| > 0
    ensures MatchesInOrder(text, find, from, OccurrencesFrom(text, find, from))
    decreases |text| - from
  {
    var occ := OccurrencesFrom(text, find, from);
    if from + |find| <= |text| {
      if OccursAt(text, find, from) {
        var rest := OccurrencesFrom(text, find, from + |find|);
        OccurrencesFromMatches(text, find, from + |find|);
        assert occ == [from] + rest;
        assert forall j :: 1 <= j < |occ| ==> occ[j] == rest[j - 1];
      } else {
        OccurrencesFromMatches(text, find, from + 1);
      }
    }
  }

  /** No match of `find` starts in [lo, hi). */
  predicate NoMatchIn(text: string, find: string, lo: int, hi: int) {
    forall i :: lo <= i < hi ==> !OccursAt(text, find, i)
  }

  /** Where the search looks after the `j`-th match: up to the next match, or to the end. */
  function NextStop(text: string, occ: seq<nat>, j: nat): int
    requires j < |occ|
  {
    if j == |occ| - 1 then |text| + 1 else occ[j + 1]
  }

  /** Nothing is listed exactly when nothing matches from `from` on; otherwise nothing
      matches before the first listed start. */
  lemma {:induction false} OccurrencesFirst(text: string, find: string, from: nat)
    requires |find| > 0
    ensures var occ := OccurrencesFrom(text, find, from);
      (occ == [] <==> forall i :: from <= i ==> !OccursAt(text, find, i))
      && (occ != [] ==> NoMatchIn(text, find, from, occ[0]))
    decreases |text| - from
  {
    if from + |find| <= |text| && !OccursAt(text, find, from) {
      OccurrencesFirst(text, find, from + 1);
    }
  }

  /** The search resumed after the `j`-th listed match lists the rest. */
  lemma {:induction false} OccurrencesSuffix(text: string, find: string, from: nat, j: nat)
    requires |find| > 0
    requires j < |OccurrencesFrom(text, find, from)|
    ensures var occ := OccurrencesFrom(text, find, from);
      OccurrencesFrom(text, find, occ[j] + |find|) == occ[j + 1..]
    decreases |text| - from, 1
  {
    var occ := OccurrencesFrom(text, find, from);
    if OccursAt(text, find, from) {
      OccurrencesSuffixAtMatch(text, find, from, j);
    } else {
      assert occ == OccurrencesFrom(text, find, from + 1);
      OccurrencesSuffix(text, find, from + 1, j);
      assert OccurrencesFrom(text, find, occ[j] + |find|) == occ[j + 1..];
    }
  }

  /** The same, when the search starts on a match. */
  lemma {:induction false} OccurrencesSuffixAtMatch(text: string, find: string, from: nat, j: nat)
    requires |find| > 0 && OccursAt(text, find, from)
    requires j < |OccurrencesFrom(text, find, from)|
    ensures var occ := OccurrencesFrom(text, find, from);
      OccurrencesFrom(text, find, occ[j] + |find|) == occ[j + 1..]
    decreases |text| - from, 0
  {
    var occ := OccurrencesFrom(text, find, from);
    var rest := OccurrencesFrom(text, find, from + |find|);
    assert occ == [from] + rest;
    if j == 0 {
      assert occ[1..] == rest;
      assert OccurrencesFrom(text, find, occ[j] + |find|) == occ[j + 1..];
    } else {
      OccurrencesSuffix(text, find, from + |find|, j - 1);
      assert occ[j] == rest[j - 1];
      assert occ[j + 1..] == rest[j..];
      assert OccurrencesFrom(text, find, occ[j] + |find|) == occ[j + 1..];
    }
  }

  /** Nor does one start between the end of the `j`-th listed match and the next listed
      start (or the end of the text). */
  lemma OccurrencesGapAt(text: string, find: string, from: nat, j: nat)
    requires |find| > 0
    requires j < |OccurrencesFrom(text, find, from)|
    ensures var occ := OccurrencesFrom(text, find, from);
      NoMatchIn(text, find, occ[j] + |find|, NextStop(text, occ, j))
  {
    var occ := OccurrencesFrom(text, find, from);
    OccurrencesSuffix(text, find, from, j);
    OccurrencesFirst(text, find, occ[j] + |find|);
  }

  /** `paragraph.search(find, {matchCase: true})`: the case-sensitive, non-overlapping
      matches, left to right. An empty search text matches nothing. */
  function Occurrences(text: string, find: string): seq<nat> {
    if find == [] then [] else OccurrencesFrom(text, find, 0)
  }

  /** Every listed match is a real match of `find`, and the matches come in order without overlapping. */
  lemma OccurrencesAreMatches(text: string, find: string)
    ensures var occ := Occurrences(text, find);
      (forall j :: 0 <= j < |occ| ==> OccursAt(text, find, occ[j]) && occ[j] + |find| <= |text|) &&
      (forall j, k :: 0 <= j < k < |occ| ==> occ[j] + |find| <= occ[k])
    ensures |find| > 0 ==> (Occurrences(text, find) == [] <==> !Contains(text, find))
  {
    if |find| > 0 {
      OccurrencesFromMatches(text, find, 0);
      OccurrencesFirst(text, find, 0);
    }
  }

  /** The `k`-th listed match lies in the text. */
  lemma OccurrenceInText(text: string, find: string, k: nat)
    requires k < |Occurrences(text, find)|
    ensures OccursAt(text, find, Occurrences(text, find)[k])
    ensures Occurrences(text, find)[k] + |find| <= |text|
  {
    OccurrencesAreMatches(text, find);
  }

  // ---------------------------------------------------------------------------
  // Messages

  /** ` (0-${count - 1})`, the valid range quoted by every out-of-range message. */
  function ValidRange(count: nat): string {
    " (0-" + IntToDecimal(count - 1) + ")"
  }

  function TableOutOfRange(t: nat, count: nat): string {
    "Table index " + NatToDecimal(t) + " out of range" + ValidRange(count)
  }

  function RowOutOfRange(r: nat, t: nat, count: nat): string {
    "Row index " + NatToDecimal(r) + " out of range for table " + NatToDecimal(t) + ValidRange(count)
  }

  function ParagraphOutOfRange(n: nat, count: nat): string {
    "Paragraph index " + NatToDecimal(n) + " out of range" + ValidRange(count)
  }

  function ColumnOutOfRange(c: nat, t: nat, r: nat, count: nat): string {
    "Column index " + NatToDecimal(c) + " out of range for table " + NatToDecimal(t)
    + " row " + NatToDecimal(r) + ValidRange(count)
  }

  function CellParagraphOutOfRange(k: nat, t: nat, r: nat, c: nat, count: nat): string {
    "Paragraph index " + NatToDecimal(k) + " out of range in table " + NatToDecimal(t)
    + " cell [" + NatToDecimal(r) + "," + NatToDecimal(c) + "]" + ValidRange(count)
  }

  function InvalidLocation(loc: string): string {
    "Invalid location format: " + loc
  }

  function SearchNotFound(find: string, loc: string): string {
    "Search text \"" + find + "\" not found in " + loc
  }

  function OccurrenceOutOfRange(occurrence: int, find: string, loc: string, found: nat): string {
    "Occurrence " + IntToDecimal(occurrence) + " out of range for \"" + find + "\" in " + loc
    + " (found " + NatToDecimal(found) + " matches)"
  }

  // ---------------------------------------------------------------------------
  // Resolution

  /** The paragraph a key names: its handle and its current text. */
  datatype Found = Found(id: nat, text: string)

  /** The regular form, `<d>.p<n>`: the `n`-th handle of the paragraph collection (the
      preloaded one when there is one, else the live list), whatever `d` says. */
  function RegularParagraph(body: seq<Block>, n: nat, preloaded: Option<seq<nat>>): Result<Found> {
    var items := if preloaded.Some? then preloaded.value else FlatIds(body);
    if n >= |items| then Failure(ParagraphOutOfRange(n, |items|))
    else Success(Found(items[n], TextOf(Flat(body), items[n])))
  }

  /** The table-cell form, `<d>.t<t>.r<r>.c<c>.p<k>`, checked against the live tables level by level. */
  function CellParagraph(body: seq<Block>, t: nat, r: nat, c: nat, k: nat): Result<Found> {
    var tables := Tables(body);
    if t >= |tables| then Failure(TableOutOfRange(t, |tables|))
    else if r >= |tables[t]| then Failure(RowOutOfRange(r, t, |tables[t]|))
    else if c >= |tables[t][r]| then Failure(ColumnOutOfRange(c, t, r, |tables[t][r]|))
    else if k >= |tables[t][r][c]| then Failure(CellParagraphOutOfRange(k, t, r, c, |tables[t][r][c]|))
    else
      var p := tables[t][r][c][k];
      Success(Found(p.id, Text(p)))
  }

  /** The paragraph itself, or the `occurrence`-th match of `find` inside it. */
  function Narrow(p: Found, loc: string, within: Option<Within>): Result<Target> {
    match within
    case None => Success(ParagraphRange(p.id))
    case Some(w) =>
      var occ := Occurrences(p.text, w.find);
      if |occ| == 0 then Failure(SearchNotFound(w.find, loc))
      else if w.occurrence < 0 || w.occurrence >= |occ| then
        Failure(OccurrenceOutOfRange(w.occurrence, w.find, loc, |occ|))
      else Success(SubRange(p.id, occ[w.occurrence], |w.find|))
  }

  /** `resolveLocation(context, loc, withinPara, preloadedParagraphs)`. The whole-table and
      row forms return before `withinPara` is read. */
  function ResolveLocation(body: seq<Block>, loc: string, within: Option<Within>, preloaded: Option<seq<nat>>): Result<Target> {
    PatternCaptureCounts();
    var tableOnly := Match(TablePattern, loc);
    var tableRow := Match(TableRowPattern, loc);
    var tables := Tables(body);
    if tableOnly.Some? then
      var t := tableOnly.value[0];
      if t >= |tables| then Failure(TableOutOfRange(t, |tables|)) else Success(TableRange(t))
    else if tableRow.Some? then
      var t, r := tableRow.value[0], tableRow.value[1];
      if t >= |tables| then Failure(TableOutOfRange(t, |tables|))
      else if r >= |tables[t]| then Failure(RowOutOfRange(r, t, |tables[t]|))
      else Success(RowRange(t, r))
    else
      match TargetParagraph(body, loc, preloaded)
      case Failure(e) => Failure(e)
      case Success(p) => Narrow(p, loc, within)
  }

  /** The paragraph of a regular or table-cell key; any other key is invalid. */
  function TargetParagraph(body: seq<Block>, loc: string, preloaded: Option<seq<nat>>): Result<Found> {
    PatternCaptureCounts();
    var regular := Match(ParagraphPattern, loc);
    var cell := Match(TableCellPattern, loc);
    if regular.Some? then RegularParagraph(body, regular.value[0], preloaded)
    else if cell.Some? then CellParagraph(body, cell.value[0], cell.value[1], cell.value[2], cell.value[3])
    else Failure(InvalidLocation(loc))
  }

  // ---------------------------------------------------------------------------
  // Properties

  /** At most one of the four location forms matches any string. */
  lemma LocationFormsExclusive(loc: string)
    ensures Match(TablePattern, loc).None? || Match(TableRowPattern, loc).None?
    ensures Match(TablePattern, loc).None? || Match(ParagraphPattern, loc).None?
    ensures Match(TablePattern, loc).None? || Match(TableCellPattern, loc).None?
    ensures Match(TableRowPattern, loc).None? || Match(ParagraphPattern, loc).None?
    ensures Match(TableRowPattern, loc).None? || Match(TableCellPattern, loc).None?
    ensures Match(ParagraphPattern, loc).None? || Match(TableCellPattern, loc).None?
  {
    ResolverPatternsDiverge();
    DivergingPatternsExclusive(TablePattern, TableRowPattern, loc);
    DivergingPatternsExclusive(TablePattern, ParagraphPattern, loc);
    DivergingPatternsExclusive(TablePattern, TableCellPattern, loc);
    DivergingPatternsExclusive(TableRowPattern, ParagraphPattern, loc);
    DivergingPatternsExclusive(TableRowPattern, TableCellPattern, loc);
    DivergingPatternsExclusive(ParagraphPattern, TableCellPattern, loc);
  }

  /** The indexer's key of a paragraph outside the tables names, through the live list or a
      snapshot of it, the paragraph at that flat index. */
  lemma ResolveParagraphKey(body: seq<Block>, docPos: nat, i: nat, preloaded: Option<seq<nat>>)
    requires i < |Flat(body)|
    requires preloaded.None? || preloaded == Some(FlatIds(body))
    ensures ResolveLocation(body, ParagraphKey(docPos, i), None, preloaded) == Success(ParagraphRange(Flat(body)[i].para.id))
  {
    var key := ParagraphKey(docPos, i);
    ParagraphKeyMatches(docPos, i);
    LocationFormsExclusive(key);
  }

  /** The indexer's key of a table-cell paragraph names that paragraph, whatever its leading number. */
  lemma ResolveCellKey(body: seq<Block>, docPos: nat, t: nat, r: nat, c: nat, k: nat, preloaded: Option<seq<nat>>)
    requires t < |Tables(body)| && r < |Tables(body)[t]| && c < |Tables(body)[t][r]| && k < |Tables(body)[t][r][c]|
    ensures TargetParagraph(body, TableCellKey(docPos, t, r, c, k), preloaded)
         == Success(Found(Tables(body)[t][r][c][k].id, Text(Tables(body)[t][r][c][k])))
    ensures ResolveLocation(body, TableCellKey(docPos, t, r, c, k), None, preloaded)
         == Success(ParagraphRange(Tables(body)[t][r][c][k].id))
  {
    var key := TableCellKey(docPos, t, r, c, k);
    TableCellKeyMatches(docPos, t, r, c, k);
    LocationFormsExclusive(key);
  }

  /** A key of none of the four forms fails with the invalid-format message, and such a key is
      the only way to get that message. */
  lemma InvalidLocationIff(body: seq<Block>, loc: string, within: Option<Within>, preloaded: Option<seq<nat>>)
    ensures ResolveLocation(body, loc, within, preloaded) == Failure(InvalidLocation(loc)) <==>
      Match(TablePattern, loc).None? && Match(TableRowPattern, loc).None? &&
      Match(ParagraphPattern, loc).None? && Match(TableCellPattern, loc).None?
  {
    var r := ResolveLocation(body, loc, within, preloaded);
    assert InvalidLocation(loc)[0] == 'I';
    MessageHeads(loc);
    if Match(TablePattern, loc).None? && Match(TableRowPattern, loc).None? {
      var para := TargetParagraph(body, loc, preloaded);
      if Match(ParagraphPattern, loc).Some? || Match(TableCellPattern, loc).Some? {
        TargetParagraphHeads(body, loc, preloaded);
        assert para.Failure? ==> para.error[0] != 'I';
        if para.Success? {
          NarrowHeads(para.value, loc, within);
        }
      }
    }
  }

  lemma TargetParagraphHeads(body: seq<Block>, loc: string, preloaded: Option<seq<nat>>)
    requires Match(ParagraphPattern, loc).Some? || Match(TableCellPattern, loc).Some?
    ensures var para := TargetParagraph(body, loc, preloaded);
      para.Failure? ==> para.error[0] in "TRCP"
  {
    MessageHeads(loc);
  }

  lemma NarrowHeads(p: Found, loc: string, within: Option<Within>)
    ensures var r := Narrow(p, loc, within);
      r.Failure? ==> r.error[0] in "SO"
  {
    MessageHeads(loc);
  }

  /** The first character of every other message, which tells the invalid-format one apart. */
  lemma MessageHeads(loc: string)
    ensures forall t, n :: TableOutOfRange(t, n)[0] == 'T'
    ensures forall r, t, n :: RowOutOfRange(r, t, n)[0] == 'R'
    ensures forall p, n :: ParagraphOutOfRange(p, n)[0] == 'P'
    ensures forall c, t, r, n :: ColumnOutOfRange(c, t, r, n)[0] == 'C'
    ensures forall k, t, r, c, n :: CellParagraphOutOfRange(k, t, r, c, n)[0] == 'P'
    ensures forall f :: SearchNotFound(f, loc)[0] == 'S'
    ensures forall o, f, n :: OccurrenceOutOfRange(o, f, loc, n)[0] == 'O'
  {
  }

  /** Whole-table and row keys resolve the same with or without `withinPara` and whatever
      the paragraph collection holds. */
  lemma TableFormsIgnoreWithin(body: seq<Block>, loc: string, w1: Option<Within>, w2: Option<Within>,
                               p1: Option<seq<nat>>, p2: Option<seq<nat>>)
    requires Match(TablePattern, loc).Some? || Match(TableRowPattern, loc).Some?
    ensures ResolveLocation(body, loc, w1, p1) == ResolveLocation(body, loc, w2, p2)
    ensures var r := ResolveLocation(body, loc, w1, p1);
      r.Success? ==> r.value.TableRange? || r.value.RowRange?
  {
  }

  /** With `withinPara`, a paragraph target fails when the text has no match or the occurrence
      is outside [0, matches), and otherwise is exactly that match. */
  lemma NarrowIff(p: Found, loc: string, w: Within)
    ensures var occ := Occurrences(p.text, w.find);
      Narrow(p, loc, Some(w)).Success? <==> 0 <= w.occurrence < |occ|
    ensures var r, occ := Narrow(p, loc, Some(w)), Occurrences(p.text, w.find);
      r.Success? ==> r.value == SubRange(p.id, occ[w.occurrence], |w.find|) &&
                     OccursAt(p.text, w.find, r.value.start)
    ensures Occurrences(p.text, w.find) == [] ==> Narrow(p, loc, Some(w)) == Failure(SearchNotFound(w.find, loc))
  {
    OccurrencesAreMatches(p.text, w.find);
  }

  /**
   * The paragraph a regular or table-cell key selects is one of the body's paragraphs, and with
   * unique handles its text is what the handle reads. The preloaded list must be the live one.
   */
  lemma TargetParagraphExists(body: seq<Block>, loc: string, preloaded: Option<seq<nat>>)
    requires preloaded.None? || preloaded == Some(FlatIds(body))
    ensures var r := TargetParagraph(body, loc, preloaded);
      r.Success? ==>
        && r.value.id in FlatIds(body)
        && (HandlesUnique(body) ==> r.value.text == TextOf(Flat(body), r.value.id))
  {
    PatternCaptureCounts();
    var regular, cell := Match(ParagraphPattern, loc), Match(TableCellPattern, loc);
    var r := TargetParagraph(body, loc, preloaded);
    if r.Success? && regular.None? && cell.Some? {
      var t: nat, row: nat, col: nat, k: nat := cell.value[0], cell.value[1], cell.value[2], cell.value[3];
      var tables := Tables(body);
      var p: Paragraph := tables[t][row][col][k];
      assert r.value == Found(p.id, Text(p));
      TableParaInFlat(body, 0, t, row, col, k);
      var fs := Flat(body);
      var j :| 0 <= j < |fs| && fs[j].para == p;
      assert FlatIds(body)[j] == p.id;
      if HandlesUnique(body) {
        forall i | 0 <= i < j
          ensures fs[i].para.id != fs[j].para.id
        {
          assert FlatIds(body)[i] == fs[i].para.id;
        }
        TextOfAt(fs, j);
      }
    }
  }

  /**
   * A successful resolution names a table, row or paragraph that exists, and a run found by
   * `withinPara` lies inside its paragraph's text.
   */
  lemma ResolvedInRange(body: seq<Block>, loc: string, within: Option<Within>, preloaded: Option<seq<nat>>)
    ensures var r := ResolveLocation(body, loc, within, preloaded);
      r.Success? ==>
        (r.value.TableRange? ==> r.value.table < |Tables(body)|) &&
        (r.value.RowRange? ==> r.value.table < |Tables(body)| && r.value.row < |Tables(body)[r.value.table]|)
    ensures var r := ResolveLocation(body, loc, within, preloaded);
      r.Success? && (preloaded.None? || preloaded == Some(FlatIds(body))) ==>
        (r.value.ParagraphRange? ==> r.value.id in FlatIds(body)) &&
        (r.value.SubRange? ==> r.value.id in FlatIds(body)) &&
        (r.value.SubRange? && HandlesUnique(body) ==>
           r.value.start + r.value.length <= |TextOf(Flat(body), r.value.id)|)
  {
    var r := ResolveLocation(body, loc, within, preloaded);
    if r.Success? && (r.value.ParagraphRange? || r.value.SubRange?) && (preloaded.None? || preloaded == Some(FlatIds(body))) {
      PatternCaptureCounts();
      var found := TargetParagraph(body, loc, preloaded);
      assert found.Success? && r == Narrow(found.value, loc, within);
      TargetParagraphExists(body, loc, preloaded);
      if within.Some? {
        NarrowIff(found.value, loc, within.value);
      }
    }
  }
}
