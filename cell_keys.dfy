/**
 * Why the index's keys name the right paragraphs. The indexer never looks at
 * the tables: it derives a cell paragraph's table number from the exits it has
 * passed and its paragraph-in-cell number from the matching cells it has seen.
 * In a document where two tables are always parted by a paragraph and every
 * table, row and cell holds something, both counters agree with the tables the
 * resolver reads, so each key of the mapping resolves to its own paragraph.
 */
module CellKeys {
  import opened Wrappers
  import opened LocationGrammar
  import opened Document
  import opened Indexer
  import opened Ranges
  import opened Resolver

  // ---------------------------------------------------------------------------
  // Counting the paragraphs of one cell inside a run of flat paragraphs

  predicate AtCell(f: FlatPara, row: nat, col: nat) {
    f.cell.Some? && f.cell.value.row == row && f.cell.value.col == col
  }

  /** The paragraphs among the first `n` that sit in row `row`, column `col`. */
  function CountAt(gs: seq<FlatPara>, n: nat, row: nat, col: nat): nat
    requires n <= |gs|
  {
    if n == 0 then 0 else CountAt(gs, n - 1, row, col) + (if AtCell(gs[n - 1], row, col) then 1 else 0)
  }

  lemma {:induction false} CountAtAppend(a: seq<FlatPara>, b: seq<FlatPara>, n: nat, row: nat, col: nat)
    requires n <= |a| + |b|
    ensures n <= |a| ==> CountAt(a + b, n, row, col) == CountAt(a, n, row, col)
    ensures n >= |a| ==> CountAt(a + b, n, row, col) == CountAt(a, |a|, row, col) + CountAt(b, n - |a|, row, col)
  {
    if n > 0 {
      CountAtAppend(a, b, n - 1, row, col);
      assert (a + b)[n - 1] == if n - 1 < |a| then a[n - 1] else b[n - 1 - |a|];
    }
  }

  lemma {:induction false} CountAtNone(a: seq<FlatPara>, n: nat, row: nat, col: nat)
    requires n <= |a|
    requires forall j :: 0 <= j < n ==> !AtCell(a[j], row, col)
    ensures CountAt(a, n, row, col) == 0
  {
    if n > 0 {
      CountAtNone(a, n - 1, row, col);
    }
  }

  lemma {:induction false} CountAtAll(a: seq<FlatPara>, n: nat, row: nat, col: nat)
    requires n <= |a|
    requires forall j :: 0 <= j < n ==> AtCell(a[j], row, col)
    ensures CountAt(a, n, row, col) == n
  {
    if n > 0 {
      CountAtAll(a, n - 1, row, col);
    }
  }

  // ---------------------------------------------------------------------------
  // Inside one table

  /** Paragraph `m` of the cells `cells` (row `r`, first column `c0`) is where its tag and count say. */
  predicate LocatedInRow(cells: Row, t: nat, r: nat, c0: nat, gs: seq<FlatPara>, m: nat)
    requires m < |gs|
  {
    && gs[m].cell.Some?
    && var c := gs[m].cell.value;
    && c.table == t && c.row == r && c0 <= c.col < c0 + |cells|
    && CountAt(gs, m, r, c.col) < |cells[c.col - c0]|
    && cells[c.col - c0][CountAt(gs, m, r, c.col)] == gs[m].para
  }

  /** Paragraph `m` of the rows `rows` (first row `r0`) is where its tag and count say. */
  predicate LocatedIn(rows: seq<Row>, t: nat, r0: nat, gs: seq<FlatPara>, m: nat)
    requires m < |gs|
  {
    && gs[m].cell.Some?
    && var c := gs[m].cell.value;
    && c.table == t && r0 <= c.row < r0 + |rows| && c.col < |rows[c.row - r0]|
    && CountAt(gs, m, c.row, c.col) < |rows[c.row - r0][c.col]|
    && rows[c.row - r0][c.col][CountAt(gs, m, c.row, c.col)] == gs[m].para
  }

  lemma {:induction false} CellsFlatLocated(cells: Row, t: nat, r: nat, c0: nat, m: nat)
    requires m < |CellsFlat(cells, t, r, c0)|
    ensures LocatedInRow(cells, t, r, c0, CellsFlat(cells, t, r, c0), m)
    decreases |cells|
  {
    var gs := CellsFlat(cells, t, r, c0);
    var head, tail := CellFlat(cells[0], t, r, c0), CellsFlat(cells[1..], t, r, c0 + 1);
    assert gs == head + tail;
    if m < |head| {
      assert gs[m] == head[m];
      CountAtAppend(head, tail, m, r, c0);
      CountAtAll(head, m, r, c0);
      assert LocatedInRow(cells, t, r, c0, gs, m);
    } else {
      var m' := m - |head|;
      CellsFlatLocated(cells[1..], t, r, c0 + 1, m');
      assert gs[m] == tail[m'];
      var col := tail[m'].cell.value.col;
      CountAtAppend(head, tail, m, r, col);
      CountAtNone(head, |head|, r, col);
      assert cells[col - c0] == cells[1..][col - (c0 + 1)];
      assert LocatedInRow(cells, t, r, c0, gs, m);
    }
  }

  lemma {:induction false} RowsFlatLocated(rows: seq<Row>, t: nat, r0: nat, m: nat)
    requires m < |RowsFlat(rows, t, r0)|
    ensures LocatedIn(rows, t, r0, RowsFlat(rows, t, r0), m)
    decreases |rows|
  {
    var gs := RowsFlat(rows, t, r0);
    var head, tail := CellsFlat(rows[0], t, r0, 0), RowsFlat(rows[1..], t, r0 + 1);
    assert gs == head + tail;
    if m < |head| {
      CellsFlatLocated(rows[0], t, r0, 0, m);
      assert gs[m] == head[m];
      CountAtAppend(head, tail, m, r0, head[m].cell.value.col);
      assert LocatedIn(rows, t, r0, gs, m);
    } else {
      var m' := m - |head|;
      RowsFlatLocated(rows[1..], t, r0 + 1, m');
      assert gs[m] == tail[m'];
      var c := tail[m'].cell.value;
      CountAtAppend(head, tail, m, c.row, c.col);
      forall j | 0 <= j < |head|
        ensures !AtCell(head[j], c.row, c.col)
      {
        CellsFlatLocated(rows[0], t, r0, 0, j);
      }
      CountAtNone(head, |head|, c.row, c.col);
      assert rows[c.row - r0] == rows[1..][c.row - (r0 + 1)];
      assert LocatedIn(rows, t, r0, gs, m);
    }
  }

  /** Every paragraph of a table carries that table's number. */
  predicate AllInTable(gs: seq<FlatPara>, t: nat) {
    forall m :: 0 <= m < |gs| ==> gs[m].cell.Some? && gs[m].cell.value.table == t
  }

  lemma RowsFlatInTable(rows: seq<Row>, t: nat)
    ensures AllInTable(RowsFlat(rows, t, 0), t)
  {
    var gs := RowsFlat(rows, t, 0);
    forall m | 0 <= m < |gs|
      ensures gs[m].cell.Some? && gs[m].cell.value.table == t
    {
      RowsFlatLocated(rows, t, 0, m);
    }
  }

  lemma FilledNotEmpty(rows: seq<Row>, t: nat)
    requires Filled(rows)
    ensures |RowsFlat(rows, t, 0)| > 0
  {
    assert RowsFlat(rows, t, 0) == CellsFlat(rows[0], t, 0, 0) + RowsFlat(rows[1..], t, 1);
    assert CellsFlat(rows[0], t, 0, 0) == CellFlat(rows[0][0], t, 0, 0) + CellsFlat(rows[0][1..], t, 0, 1);
  }

  // ---------------------------------------------------------------------------
  // The counters over a longer run

  lemma {:induction false} ExitsPrefix(fs: seq<FlatPara>, gs: seq<FlatPara>, n: nat)
    requires n <= |fs|
    ensures Exits(fs + gs, n) == Exits(fs, n)
  {
    if n > 0 {
      ExitsPrefix(fs, gs, n - 1);
      assert IsExit(fs + gs, n - 1) == IsExit(fs, n - 1);
    }
  }

  lemma {:induction false} InCellBeforePrefix(fs: seq<FlatPara>, gs: seq<FlatPara>, n: nat, t: nat, row: nat, col: nat)
    requires n <= |fs|
    ensures InCellBefore(fs + gs, n, t, row, col) == InCellBefore(fs, n, t, row, col)
  {
    if n > 0 {
      InCellBeforePrefix(fs, gs, n - 1, t, row, col);
      ExitsPrefix(fs, gs, n - 1);
      assert InCell(fs + gs, n - 1, t, row, col) == InCell(fs, n - 1, t, row, col);
    }
  }

  lemma {:induction false} InCellBeforeNone(fs: seq<FlatPara>, n: nat, t: nat, row: nat, col: nat)
    requires n <= |fs|
    requires forall j :: 0 <= j < n ==> !InCell(fs, j, t, row, col)
    ensures InCellBefore(fs, n, t, row, col) == 0
  {
    if n > 0 {
      InCellBeforeNone(fs, n - 1, t, row, col);
    }
  }

  /** Walking through a table passes no exit. */
  lemma {:induction false} ExitsInTable(fs: seq<FlatPara>, gs: seq<FlatPara>, t: nat, m: nat)
    requires AllInTable(gs, t) && m <= |gs|
    ensures Exits(fs + gs, |fs| + m) == Exits(fs, |fs|)
  {
    if m == 0 {
      ExitsPrefix(fs, gs, |fs|);
    } else {
      ExitsInTable(fs, gs, t, m - 1);
      assert (fs + gs)[|fs| + m - 1] == gs[m - 1];
    }
  }

  /** Inside a table, the paragraph-in-cell counter counts that table's cells only. */
  lemma {:induction false} InCellBeforeInTable(fs: seq<FlatPara>, gs: seq<FlatPara>, t: nat, m: nat, row: nat, col: nat)
    requires AllInTable(gs, t) && m <= |gs| && Exits(fs, |fs|) == t
    ensures InCellBefore(fs + gs, |fs| + m, t, row, col) == InCellBefore(fs + gs, |fs|, t, row, col) + CountAt(gs, m, row, col)
  {
    if m > 0 {
      InCellBeforeInTable(fs, gs, t, m - 1, row, col);
      ExitsInTable(fs, gs, t, m - 1);
      assert (fs + gs)[|fs| + m - 1] == gs[m - 1];
      assert InCell(fs + gs, |fs| + m - 1, t, row, col) == AtCell(gs[m - 1], row, col);
    }
  }

  // ---------------------------------------------------------------------------
  // Growing the document one block at a time

  lemma AppendAssoc<T>(x: seq<T>, y: seq<T>, z: seq<T>)
    ensures x + (y + z) == (x + y) + z
  {
  }

  lemma {:induction false} FlatFromAppend(a: seq<Block>, b: seq<Block>, t: nat)
    ensures FlatFrom(a + b, t) == FlatFrom(a, t) + FlatFrom(b, t + |Tables(a)|)
    decreases |a|
  {
    if a == [] {
      assert a + b == b;
    } else {
      FlatFromAppend(a[1..], b, t + TableStep(a[0]));
      FlatFromAppendStep(a, b, t);
    }
  }

  /** One step of the induction above: the first block comes off the front on both sides. */
  lemma FlatFromAppendStep(a: seq<Block>, b: seq<Block>, t: nat)
    requires a != []
    requires var t' := t + TableStep(a[0]);
      FlatFrom(a[1..] + b, t') == FlatFrom(a[1..], t') + FlatFrom(b, t' + |Tables(a[1..])|)
    ensures FlatFrom(a + b, t) == FlatFrom(a, t) + FlatFrom(b, t + |Tables(a)|)
  {
    var step := TableStep(a[0]);
    var x, y, z := BlockFlat(a[0], t), FlatFrom(a[1..], t + step), FlatFrom(b, t + |Tables(a)|);
    FlatFromCons(a, b, t);
    assert |Tables(a)| == step + |Tables(a[1..])|;
    AppendAssoc(x, y, z);
  }

  lemma FlatFromCons(a: seq<Block>, b: seq<Block>, t: nat)
    requires a != []
    ensures FlatFrom(a + b, t) == BlockFlat(a[0], t) + FlatFrom(a[1..] + b, t + TableStep(a[0]))
  {
    assert (a + b)[0] == a[0];
    assert (a + b)[1..] == a[1..] + b;
  }

  lemma FlatFromSingle(b: Block, t: nat)
    ensures FlatFrom([b], t) == BlockFlat(b, t)
  {
    assert [b][1..] == [];
    assert FlatFrom([b][1..], t + TableStep(b)) == [];
  }

  lemma FlatSnoc(init: seq<Block>, b: Block)
    ensures Flat(init + [b]) == Flat(init) + BlockFlat(b, |Tables(init)|)
  {
    FlatFromAppend(init, [b], 0);
    FlatFromSingle(b, |Tables(init)|);
  }

  lemma TablesSnoc(init: seq<Block>, b: Block)
    ensures Tables(init + [b]) == Tables(init) + (if b.Table? then [b.rows] else [])
  {
    TablesAppend(init, [b]);
    assert [b][1..] == [];
  }

  /** Flat paragraph `j` sits in the table, row and cell its tag names, at the place the counter gives. */
  predicate CellNamed(tables: seq<seq<Row>>, fs: seq<FlatPara>, j: nat)
    requires j < |fs|
  {
    fs[j].cell.Some? ==>
      var c := fs[j].cell.value;
      var k := InCellBefore(fs, j, c.table, c.row, c.col);
      && Exits(fs, j) == c.table
      && c.table < |tables| && c.row < |tables[c.table]| && c.col < |tables[c.table][c.row]|
      && k < |tables[c.table][c.row][c.col]| && tables[c.table][c.row][c.col][k] == fs[j].para
  }

  predicate EndsInTable(body: seq<Block>) {
    body != [] && body[|body| - 1].Table?
  }

  /** What the counters know after the flat list of `body`. */
  predicate Tracks(body: seq<Block>) {
    var fs := Flat(body);
    && Exits(fs, |fs|) + (if EndsInTable(body) then 1 else 0) == |Tables(body)|
    && ((|fs| > 0 && fs[|fs| - 1].cell.Some?) <==> EndsInTable(body))
    && forall j :: 0 <= j < |fs| ==> CellNamed(Tables(body), fs, j)
  }

  /** A paragraph already placed keeps its place when more paragraphs and tables follow. */
  lemma CellNamedExtend(tables: seq<seq<Row>>, more: seq<seq<Row>>, fs: seq<FlatPara>, gs: seq<FlatPara>, j: nat)
    requires j < |fs| && CellNamed(tables, fs, j)
    ensures CellNamed(tables + more, fs + gs, j)
  {
    if fs[j].cell.Some? {
      var c := fs[j].cell.value;
      ExitsPrefix(fs, gs, j);
      InCellBeforePrefix(fs, gs, j, c.table, c.row, c.col);
      assert (fs + gs)[j] == fs[j];
      assert (tables + more)[c.table] == tables[c.table];
    }
  }

  lemma SnocPlain(init: seq<Block>, p: Paragraph)
    requires Tracks(init)
    ensures Tracks(init + [Plain(p)])
  {
    var body := init + [Plain(p)];
    FlatSnoc(init, Plain(p));
    TablesSnoc(init, Plain(p));
    var fs := Flat(init);
    var gs := [FlatPara(p, None)];
    var nf := fs + gs;
    var tables := Tables(init);
    assert Flat(body) == nf;
    assert Tables(body) == tables + [];
    ExitsPrefix(fs, gs, |fs|);
    assert IsExit(nf, |fs|) <==> EndsInTable(init) by {
      if |fs| > 0 { assert nf[|fs| - 1] == fs[|fs| - 1]; }
    }
    assert Exits(nf, |nf|) == |Tables(body)|;
    forall j | 0 <= j < |nf|
      ensures CellNamed(Tables(body), nf, j)
    {
      if j < |fs| {
        assert CellNamed(tables, fs, j);
        CellNamedExtend(tables, [], fs, gs, j);
      }
    }
    assert !EndsInTable(body);
  }

  lemma SnocTable(init: seq<Block>, rows: seq<Row>)
    requires Tracks(init) && !EndsInTable(init) && Filled(rows)
    ensures Tracks(init + [Table(rows)])
  {
    var body := init + [Table(rows)];
    var tables := Tables(init);
    var t := |tables|;
    FlatSnoc(init, Table(rows));
    TablesSnoc(init, Table(rows));
    var fs := Flat(init);
    var gs := RowsFlat(rows, t, 0);
    var nf := fs + gs;
    assert Flat(body) == nf;
    assert Tables(body) == tables + [rows];
    RowsFlatInTable(rows, t);
    FilledNotEmpty(rows, t);
    FreshTableUncounted(init);
    ExitsInTable(fs, gs, t, |gs|);
    assert Exits(nf, |nf|) + 1 == |Tables(body)|;
    assert nf[|nf| - 1] == gs[|gs| - 1];
    forall j | 0 <= j < |nf|
      ensures CellNamed(tables + [rows], nf, j)
    {
      if j < |fs| {
        assert CellNamed(tables, fs, j);
        CellNamedExtend(tables, [rows], fs, gs, j);
      } else {
        NewCellNamed(tables + [rows], fs, rows, t, j - |fs|);
      }
    }
    assert EndsInTable(body);
  }

  /** No cell of table `t` has been counted within `fs`. */
  ghost predicate Uncounted(fs: seq<FlatPara>, t: nat) {
    forall row: nat, col: nat :: InCellBefore(fs, |fs|, t, row, col) == 0
  }

  /** Before a new table starts, none of its cells has been counted. */
  lemma FreshTableUncounted(init: seq<Block>)
    requires Tracks(init)
    ensures Uncounted(Flat(init), |Tables(init)|)
  {
    var fs := Flat(init);
    var t := |Tables(init)|;
    forall row: nat, col: nat
      ensures InCellBefore(fs, |fs|, t, row, col) == 0
    {
      forall j | 0 <= j < |fs|
        ensures !InCell(fs, j, t, row, col)
      {
        assert CellNamed(Tables(init), fs, j);
      }
      InCellBeforeNone(fs, |fs|, t, row, col);
    }
  }

  /** Paragraph `m` of a table appended after `fs` gets its own table number and place. */
  lemma TableParagraphCounted(fs: seq<FlatPara>, rows: seq<Row>, t: nat, m: nat)
    requires Exits(fs, |fs|) == t && Uncounted(fs, t)
    requires m < |RowsFlat(rows, t, 0)|
    ensures var gs := RowsFlat(rows, t, 0);
      && LocatedIn(rows, t, 0, gs, m)
      && Exits(fs + gs, |fs| + m) == t
      && InCellBefore(fs + gs, |fs| + m, t, gs[m].cell.value.row, gs[m].cell.value.col)
         == CountAt(gs, m, gs[m].cell.value.row, gs[m].cell.value.col)
  {
    var gs := RowsFlat(rows, t, 0);
    RowsFlatInTable(rows, t);
    RowsFlatLocated(rows, t, 0, m);
    var c := gs[m].cell.value;
    ExitsInTable(fs, gs, t, m);
    InCellBeforeInTable(fs, gs, t, m, c.row, c.col);
    InCellBeforePrefix(fs, gs, |fs|, t, c.row, c.col);
    assert InCellBefore(fs, |fs|, t, c.row, c.col) == 0;
  }

  lemma NewCellNamed(tables: seq<seq<Row>>, fs: seq<FlatPara>, rows: seq<Row>, t: nat, m: nat)
    requires t < |tables| && tables[t] == rows
    requires Exits(fs, |fs|) == t && Uncounted(fs, t)
    requires m < |RowsFlat(rows, t, 0)|
    ensures CellNamed(tables, fs + RowsFlat(rows, t, 0), |fs| + m)
  {
    var gs := RowsFlat(rows, t, 0);
    var nf := fs + gs;
    TableParagraphCounted(fs, rows, t, m);
    assert nf[|fs| + m] == gs[m];
  }

  /** Under Word's guarantees the counters agree with the tables, paragraph by paragraph. */
  lemma {:induction false} CountersTrack(body: seq<Block>)
    requires Separated(body) && TablesFilled(body)
    ensures Tracks(body)
    decreases |body|
  {
    if body == [] {
      assert Flat(body) == [];
    } else {
      var init, b := body[..|body| - 1], body[|body| - 1];
      assert body == init + [b];
      assert Separated(init) by {
        forall i | 0 <= i < |init| - 1
          ensures init[i].Plain? || init[i + 1].Plain?
        {
          assert init[i] == body[i] && init[i + 1] == body[i + 1];
        }
      }
      assert TablesFilled(init) by {
        forall i | 0 <= i < |init| && init[i].Table?
          ensures Filled(init[i].rows)
        {
          assert init[i] == body[i];
        }
      }
      CountersTrack(init);
      match b
      case Plain(p) => SnocPlain(init, p);
      case Table(rows) =>
        assert TablesFilled(body);
        assert init != [] ==> body[|body| - 2] == init[|init| - 1];
        SnocTable(init, rows);
    }
  }

  // ---------------------------------------------------------------------------
  // The mapping's keys resolve

  /**
   * The key the index gives a cell paragraph carries the number of the table that
   * holds it, and resolves to that paragraph and its text.
   */
  lemma CellKeyResolves(body: seq<Block>, i: nat, preloaded: Option<seq<nat>>)
    requires Separated(body) && TablesFilled(body)
    requires i < |Flat(body)| && Flat(body)[i].cell.Some?
    ensures var fs := Flat(body);
      var c := fs[i].cell.value;
      && KeyOf(fs, i) == TableCellKey(i, c.table, c.row, c.col, InCellBefore(fs, i, c.table, c.row, c.col))
      && TargetParagraph(body, KeyOf(fs, i), preloaded) == Success(Found(fs[i].para.id, Text(fs[i].para)))
      && ResolveLocation(body, KeyOf(fs, i), None, preloaded) == Success(ParagraphRange(fs[i].para.id))
  {
    var fs := Flat(body);
    var c := fs[i].cell.value;
    CountersTrack(body);
    assert CellNamed(Tables(body), fs, i);
    var k := InCellBefore(fs, i, c.table, c.row, c.col);
    ResolveCellKey(body, i, c.table, c.row, c.col, k, preloaded);
  }

  /**
   * Every entry of the mapping taken before the edits names its paragraph: its key
   * resolves to that paragraph, and the text found there is the entry's text.
   */
  lemma MappingKeysResolve(body: seq<Block>, i: nat, preloaded: Option<seq<nat>>)
    requires Separated(body) && TablesFilled(body) && HandlesUnique(body)
    requires i < |Flat(body)|
    requires preloaded.None? || preloaded == Some(FlatIds(body))
    ensures var fs := Flat(body);
      var e := Mapping(fs)[i];
      && TargetParagraph(body, e.key, preloaded) == Success(Found(fs[i].para.id, e.text))
      && ResolveLocation(body, e.key, None, preloaded) == Success(ParagraphRange(fs[i].para.id))
  {
    var fs := Flat(body);
    if fs[i].cell.Some? {
      CellKeyResolves(body, i, preloaded);
    } else {
      var key := ParagraphKey(i, i);
      assert KeyOf(fs, i) == key;
      ParagraphKeyMatches(i, i);
      LocationFormsExclusive(key);
      ResolveParagraphKey(body, i, i, preloaded);
      assert FlatIds(body)[i] == fs[i].para.id;
      forall j | 0 <= j < i
        ensures fs[j].para.id != fs[i].para.id
      {
        assert FlatIds(body)[j] == fs[j].para.id;
      }
      TextOfAt(fs, i);
    }
  }
}
