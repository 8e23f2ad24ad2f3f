/** The Word document as the engine sees it: a body of blocks, each a plain paragraph
    or a table; a table is rows, a row is cells, a cell is paragraphs. Every paragraph
    carries a handle (`id`) and its characters with their formatting. The flat
    paragraph list that `body.paragraphs` returns, and the table list that
    `body.tables` returns, are derived from the blocks. */
module Document {
  import opened Wrappers

  /** One character of a paragraph with the three formatting properties the handlers set. */
  datatype Glyph = Glyph(ch: char, bold: bool, strikeThrough: bool, highlightColor: string)

  /** A paragraph: its handle and its content. */
  datatype Paragraph = Paragraph(id: nat, glyphs: seq<Glyph>)

  type Cell = seq<Paragraph>
  type Row = seq<Cell>

  datatype Block = Plain(para: Paragraph) | Table(rows: seq<Row>)

  /** Where a paragraph sits when it is inside a table: `table` counts the tables of the body. */
  datatype CellAt = CellAt(table: nat, row: nat, col: nat)

  /** An entry of `body.paragraphs`: the paragraph and its `parentTableCellOrNullObject`. */
  datatype FlatPara = FlatPara(para: Paragraph, cell: Option<CellAt>)

  /** The characters of a run of glyphs. */
  function Chars(gs: seq<Glyph>): (s: string)
    ensures |s| == |gs|
    ensures forall i :: 0 <= i < |s| ==> s[i] == gs[i].ch
  {
    seq(|gs|, i requires 0 <= i < |gs| => gs[i].ch)
  }

  lemma CharsAppend(a: seq<Glyph>, b: seq<Glyph>)
    ensures Chars(a + b) == Chars(a) + Chars(b)
  {
  }

  /** `paragraph.text`. */
  function Text(p: Paragraph): string {
    Chars(p.glyphs)
  }

  /** Inserted text carries no formatting of its own. */
  function PlainGlyphs(s: string): (g: seq<Glyph>)
    ensures |g| == |s|
    ensures forall i :: 0 <= i < |s| ==> g[i] == Glyph(s[i], false, false, "")
    ensures Chars(g) == s
  {
    seq(|s|, i requires 0 <= i < |s| => Glyph(s[i], false, false, ""))
  }

  function TableStep(b: Block): nat {
    if b.Table? then 1 else 0
  }

  // ---------------------------------------------------------------------------
  // The derived lists

  function CellFlat(cell: Cell, t: nat, r: nat, c: nat): (fs: seq<FlatPara>)
    ensures |fs| == |cell|
    ensures forall k :: 0 <= k < |cell| ==> fs[k] == FlatPara(cell[k], Some(CellAt(t, r, c)))
  {
    seq(|cell|, k requires 0 <= k < |cell| => FlatPara(cell[k], Some(CellAt(t, r, c))))
  }

  /** The paragraphs of the cells of one row, from column `c` on. */
  function CellsFlat(cells: Row, t: nat, r: nat, c: nat): seq<FlatPara>
    decreases |cells|
  {
    if cells == [] then [] else CellFlat(cells[0], t, r, c) + CellsFlat(cells[1..], t, r, c + 1)
  }

  /** The paragraphs of the rows of one table, from row `r` on. */
  function RowsFlat(rows: seq<Row>, t: nat, r: nat): seq<FlatPara>
    decreases |rows|
  {
    if rows == [] then [] else CellsFlat(rows[0], t, r, 0) + RowsFlat(rows[1..], t, r + 1)
  }

  function BlockFlat(b: Block, t: nat): seq<FlatPara> {
    match b
    case Plain(p) => [FlatPara(p, None)]
    case Table(rows) => RowsFlat(rows, t, 0)
  }

  /** The paragraphs of the blocks, when `t` tables came before them. */
  function FlatFrom(body: seq<Block>, t: nat): seq<FlatPara>
    decreases |body|
  {
    if body == [] then [] else BlockFlat(body[0], t) + FlatFrom(body[1..], t + TableStep(body[0]))
  }

  /** `body.paragraphs`: every paragraph in document order, table paragraphs included. */
  function Flat(body: seq<Block>): seq<FlatPara> {
    FlatFrom(body, 0)
  }

  /** The handles of `body.paragraphs`, what a loaded paragraph collection holds. */
  function FlatIds(body: seq<Block>): (ids: seq<nat>)
    ensures |ids| == |Flat(body)|
    ensures forall i :: 0 <= i < |ids| ==> ids[i] == Flat(body)[i].para.id
  {
    var fs := Flat(body);
    seq(|fs|, i requires 0 <= i < |fs| => fs[i].para.id)
  }

  /** `body.tables`, each as its rows. */
  function Tables(body: seq<Block>): seq<seq<Row>>
    decreases |body|
  {
    if body == [] then []
    else (if body[0].Table? then [body[0].rows] else []) + Tables(body[1..])
  }

  /** The paragraphs that stand outside every table, in order. */
  function Plains(body: seq<Block>): seq<Paragraph>
    decreases |body|
  {
    if body == [] then []
    else (if body[0].Plain? then [body[0].para] else []) + Plains(body[1..])
  }

  /** Two tables are always parted by a paragraph. */
  predicate Separated(body: seq<Block>) {
    forall i :: 0 <= i < |body| - 1 ==> body[i].Plain? || body[i + 1].Plain?
  }

  /** A Word table has at least one row, every row at least one cell, every cell at least one paragraph. */
  predicate Filled(rows: seq<Row>) {
    && |rows| > 0
    && forall r :: 0 <= r < |rows| ==> |rows[r]| > 0 && forall c :: 0 <= c < |rows[r]| ==> |rows[r][c]| > 0
  }

  predicate TablesFilled(body: seq<Block>) {
    forall i :: 0 <= i < |body| && body[i].Table? ==> Filled(body[i].rows)
  }

  /** The content of the first paragraph with handle `id`, or nothing when the handle is gone. */
  function TextOf(fs: seq<FlatPara>, id: nat): string
    decreases |fs|
  {
    if fs == [] then ""
    else if fs[0].para.id == id then Text(fs[0].para)
    else TextOf(fs[1..], id)
  }

  /** The tables before a block index. */
  function TablesBefore(body: seq<Block>, k: nat): nat
    requires k <= |body|
  {
    |Tables(body[..k])|
  }

  // ---------------------------------------------------------------------------
  // Editing every paragraph with its position

  /** An edit of one paragraph that may depend on where the paragraph is. */
  type Edit = (Paragraph, Option<CellAt>) -> Paragraph

  function MapCell(cell: Cell, t: nat, r: nat, c: nat, f: Edit): (m: Cell)
    ensures |m| == |cell|
  {
    seq(|cell|, k requires 0 <= k < |cell| => f(cell[k], Some(CellAt(t, r, c))))
  }

  function MapCells(cells: Row, t: nat, r: nat, c: nat, f: Edit): (m: Row)
    ensures |m| == |cells|
    decreases |cells|
  {
    if cells == [] then [] else [MapCell(cells[0], t, r, c, f)] + MapCells(cells[1..], t, r, c + 1, f)
  }

  function MapRows(rows: seq<Row>, t: nat, r: nat, f: Edit): (m: seq<Row>)
    ensures |m| == |rows|
    decreases |rows|
  {
    if rows == [] then [] else [MapCells(rows[0], t, r, 0, f)] + MapRows(rows[1..], t, r + 1, f)
  }

  function MapBlock(b: Block, t: nat, f: Edit): (m: Block)
    ensures TableStep(m) == TableStep(b)
  {
    match b
    case Plain(p) => Plain(f(p, None))
    case Table(rows) => Table(MapRows(rows, t, 0, f))
  }

  function MapFrom(body: seq<Block>, t: nat, f: Edit): (m: seq<Block>)
    ensures |m| == |body|
    decreases |body|
  {
    if body == [] then [] else [MapBlock(body[0], t, f)] + MapFrom(body[1..], t + TableStep(body[0]), f)
  }

  /** Every paragraph of the body replaced by its edit. */
  function MapParas(body: seq<Block>, f: Edit): seq<Block> {
    MapFrom(body, 0, f)
  }

  /** The flat list after an edit of every paragraph: positions stay, paragraphs are edited. */
  function MapFlat(fs: seq<FlatPara>, f: Edit): (m: seq<FlatPara>)
    ensures |m| == |fs|
    ensures forall i :: 0 <= i < |fs| ==> m[i] == FlatPara(f(fs[i].para, fs[i].cell), fs[i].cell)
  {
    seq(|fs|, i requires 0 <= i < |fs| => FlatPara(f(fs[i].para, fs[i].cell), fs[i].cell))
  }

  lemma MapFlatAppend(a: seq<FlatPara>, b: seq<FlatPara>, f: Edit)
    ensures MapFlat(a + b, f) == MapFlat(a, f) + MapFlat(b, f)
  {
  }

  lemma {:induction false} MapCellsFlat(cells: Row, t: nat, r: nat, c: nat, f: Edit)
    ensures CellsFlat(MapCells(cells, t, r, c, f), t, r, c) == MapFlat(CellsFlat(cells, t, r, c), f)
    decreases |cells|
  {
    if cells != [] {
      var m := MapCells(cells, t, r, c, f);
      assert m[0] == MapCell(cells[0], t, r, c, f) && m[1..] == MapCells(cells[1..], t, r, c + 1, f);
      MapCellsFlat(cells[1..], t, r, c + 1, f);
      assert CellFlat(m[0], t, r, c) == MapFlat(CellFlat(cells[0], t, r, c), f);
      MapFlatAppend(CellFlat(cells[0], t, r, c), CellsFlat(cells[1..], t, r, c + 1), f);
    }
  }

  lemma {:induction false} MapRowsFlat(rows: seq<Row>, t: nat, r: nat, f: Edit)
    ensures RowsFlat(MapRows(rows, t, r, f), t, r) == MapFlat(RowsFlat(rows, t, r), f)
    decreases |rows|
  {
    if rows != [] {
      var m := MapRows(rows, t, r, f);
      assert m[0] == MapCells(rows[0], t, r, 0, f) && m[1..] == MapRows(rows[1..], t, r + 1, f);
      MapCellsFlat(rows[0], t, r, 0, f);
      MapRowsFlat(rows[1..], t, r + 1, f);
      MapFlatAppend(CellsFlat(rows[0], t, r, 0), RowsFlat(rows[1..], t, r + 1), f);
    }
  }

  lemma {:induction false} MapFromFlat(body: seq<Block>, t: nat, f: Edit)
    ensures FlatFrom(MapFrom(body, t, f), t) == MapFlat(FlatFrom(body, t), f)
    decreases |body|
  {
    if body != [] {
      var m := MapFrom(body, t, f);
      assert m[0] == MapBlock(body[0], t, f) && m[1..] == MapFrom(body[1..], t + TableStep(body[0]), f);
      if body[0].Table? {
        MapRowsFlat(body[0].rows, t, 0, f);
      }
      MapFromFlat(body[1..], t + TableStep(body[0]), f);
      MapFlatAppend(BlockFlat(body[0], t), FlatFrom(body[1..], t + TableStep(body[0])), f);
    }
  }

  /** Editing every paragraph edits each entry of the flat list in place and moves none. */
  lemma MapParasFlat(body: seq<Block>, f: Edit)
    ensures Flat(MapParas(body, f)) == MapFlat(Flat(body), f)
  {
    MapFromFlat(body, 0, f);
  }

  lemma {:induction false} MapFromShape(body: seq<Block>, t: nat, f: Edit)
    ensures forall i :: 0 <= i < |body| ==> MapFrom(body, t, f)[i].Plain? == body[i].Plain?
    ensures |Tables(MapFrom(body, t, f))| == |Tables(body)|
    decreases |body|
  {
    if body != [] {
      MapFromShape(body[1..], t + TableStep(body[0]), f);
      var m := MapFrom(body, t, f);
      assert m[1..] == MapFrom(body[1..], t + TableStep(body[0]), f);
      forall i | 1 <= i < |body| ensures m[i].Plain? == body[i].Plain? {
        assert m[i] == m[1..][i - 1];
      }
    }
  }

  /** Editing paragraphs keeps the block structure, so it keeps tables apart. */
  lemma MapParasSeparated(body: seq<Block>, f: Edit)
    requires Separated(body)
    ensures Separated(MapParas(body, f))
    ensures |Tables(MapParas(body, f))| == |Tables(body)|
  {
    MapFromShape(body, 0, f);
  }

  // ---------------------------------------------------------------------------
  // Structural edits of tables

  /** What takes a replaced table's place: a table of the new rows, or nothing. */
  function Replacement(rows: Option<seq<Row>>): seq<Block> {
    match rows case Some(rs) => [Table(rs)] case None => []
  }

  /** The tables a replacement contributes: the new rows, or none. */
  function ReplacementTables(rows: Option<seq<Row>>): seq<seq<Row>> {
    match rows case Some(rs) => [rs] case None => []
  }

  /** The body with its `t`-th table given new rows, or removed when `rows` is None. */
  function ReplaceTable(body: seq<Block>, t: nat, rows: Option<seq<Row>>): seq<Block>
    decreases |body|
  {
    if body == [] then []
    else if body[0].Table? && t == 0 then
      Replacement(rows) + body[1..]
    else [body[0]] + ReplaceTable(body[1..], t - TableStep(body[0]), rows)
  }

  /** The `t`-th table and nothing else changes, whether it gets new rows or goes. */
  lemma {:induction false} ReplaceTableTables(body: seq<Block>, t: nat, rows: Option<seq<Row>>)
    requires t < |Tables(body)|
    ensures Tables(ReplaceTable(body, t, rows))
         == Tables(body)[..t] + ReplacementTables(rows) + Tables(body)[t + 1..]
    decreases |body|
  {
    var r := ReplaceTable(body, t, rows);
    var mid := ReplacementTables(rows);
    var rest := Tables(body[1..]);
    var h: seq<seq<Row>> := if body[0].Table? then [body[0].rows] else [];
    assert Tables(body) == h + rest;
    if body[0].Table? && t == 0 {
      var head := Replacement(rows);
      assert r == head + body[1..];
      TablesAppend(head, body[1..]);
      assert Tables(head) == mid;
      assert (h + rest)[..t] == [] && (h + rest)[t + 1..] == rest;
      assert Tables(r) == Tables(body)[..t] + mid + Tables(body)[t + 1..];
    } else {
      var t' := t - TableStep(body[0]);
      var tail := ReplaceTable(body[1..], t', rows);
      ReplaceTableTables(body[1..], t', rows);
      assert r == [body[0]] + tail;
      assert r[0] == body[0] && r[1..] == tail;
      assert Tables(r) == h + Tables(tail);
      SliceShift(h, rest, t', mid);
      assert |h| + t' == t;
      assert Tables(r) == Tables(body)[..t] + mid + Tables(body)[t + 1..];
    }
  }

  /** Replacing an item after a prefix `h` is replacing it in the rest and putting `h` back. */
  lemma SliceShift<T>(h: seq<T>, rest: seq<T>, t: nat, mid: seq<T>)
    requires t < |rest|
    ensures h + (rest[..t] + mid + rest[t + 1..]) == (h + rest)[..|h| + t] + mid + (h + rest)[|h| + t + 1..]
  {
    assert (h + rest)[..|h| + t] == h + rest[..t];
    assert (h + rest)[|h| + t + 1..] == rest[t + 1..];
  }

  /** Table edits leave the paragraphs outside tables as they were. */
  lemma {:induction false} ReplaceTablePlains(body: seq<Block>, t: nat, rows: Option<seq<Row>>)
    ensures Plains(ReplaceTable(body, t, rows)) == Plains(body)
    decreases |body|
  {
    if body != [] {
      var r := ReplaceTable(body, t, rows);
      assert body == [body[0]] + body[1..];
      PlainsAppend([body[0]], body[1..]);
      if body[0].Table? && t == 0 {
        var head := Replacement(rows);
        assert r == head + body[1..];
        PlainsAppend(head, body[1..]);
        assert Plains(head) == [];
      } else {
        var t' := t - TableStep(body[0]);
        ReplaceTablePlains(body[1..], t', rows);
        assert r == [body[0]] + ReplaceTable(body[1..], t', rows);
        PlainsAppend([body[0]], ReplaceTable(body[1..], t', rows));
      }
    }
  }

  lemma {:induction false} TablesAppend(a: seq<Block>, b: seq<Block>)
    ensures Tables(a + b) == Tables(a) + Tables(b)
    decreases |a|
  {
    if a == [] {
      assert a + b == b;
    } else {
      assert (a + b)[0] == a[0] && (a + b)[1..] == a[1..] + b;
      TablesAppend(a[1..], b);
    }
  }

  lemma {:induction false} PlainsAppend(a: seq<Block>, b: seq<Block>)
    ensures Plains(a + b) == Plains(a) + Plains(b)
    decreases |a|
  {
    if a == [] {
      assert a + b == b;
    } else {
      assert (a + b)[0] == a[0] && (a + b)[1..] == a[1..] + b;
      PlainsAppend(a[1..], b);
    }
  }

  /** Giving a table new rows keeps every block's kind, so it keeps tables apart. */
  lemma {:induction false} ReplaceTableShape(body: seq<Block>, t: nat, rs: seq<Row>)
    ensures |ReplaceTable(body, t, Some(rs))| == |body|
    ensures forall i :: 0 <= i < |body| ==> ReplaceTable(body, t, Some(rs))[i].Plain? == body[i].Plain?
    decreases |body|
  {
    if body != [] && !(body[0].Table? && t == 0) {
      ReplaceTableShape(body[1..], t - TableStep(body[0]), rs);
      var r := ReplaceTable(body, t, Some(rs));
      forall i | 1 <= i < |body| ensures r[i].Plain? == body[i].Plain? {
        assert r[i] == ReplaceTable(body[1..], t - TableStep(body[0]), Some(rs))[i - 1];
      }
    }
  }

  /** Removing a table from a body whose tables are apart leaves them apart. */
  lemma {:induction false} RemoveTableSeparated(body: seq<Block>, t: nat)
    requires Separated(body)
    ensures Separated(ReplaceTable(body, t, None))
    decreases |body|
  {
    if body != [] {
      if body[0].Table? && t == 0 {
        assert ReplaceTable(body, t, None) == body[1..];
      } else {
        var rest := ReplaceTable(body[1..], t - TableStep(body[0]), None);
        RemoveTableSeparated(body[1..], t - TableStep(body[0]));
        if body[0].Table? && |body| > 1 {
          assert body[1].Plain?;
          assert rest[0] == body[1];
        }
        var r := [body[0]] + rest;
        forall i | 0 <= i < |r| - 1 ensures r[i].Plain? || r[i + 1].Plain? {
          if i > 0 {
            assert r[i] == rest[i - 1] && r[i + 1] == rest[i];
          }
        }
      }
    }
  }

  /** Replacing or removing one table: the other tables stay in order, the paragraphs outside
      tables stay, and tables stay apart. */
  lemma ReplaceTableEffect(body: seq<Block>, t: nat, rows: Option<seq<Row>>)
    requires t < |Tables(body)|
    ensures Tables(ReplaceTable(body, t, rows))
         == Tables(body)[..t] + ReplacementTables(rows) + Tables(body)[t + 1..]
    ensures Plains(ReplaceTable(body, t, rows)) == Plains(body)
    ensures Separated(body) ==> Separated(ReplaceTable(body, t, rows))
  {
    ReplaceTableTables(body, t, rows);
    ReplaceTablePlains(body, t, rows);
    if Separated(body) {
      match rows
      case None => RemoveTableSeparated(body, t);
      case Some(rs) => ReplaceTableShape(body, t, rs);
    }
  }

  /** No two paragraphs share a handle. */
  predicate HandlesUnique(body: seq<Block>) {
    var ids := FlatIds(body);
    forall i, j :: 0 <= i < j < |ids| ==> ids[i] != ids[j]
  }

  /** With no earlier paragraph of the same handle, the text found by handle is that paragraph's. */
  lemma {:induction false} TextOfAt(fs: seq<FlatPara>, i: nat)
    requires i < |fs|
    requires forall j :: 0 <= j < i ==> fs[j].para.id != fs[i].para.id
    ensures TextOf(fs, fs[i].para.id) == Text(fs[i].para)
    decreases i
  {
    if i > 0 {
      assert fs[1..][i - 1] == fs[i];
      forall j | 0 <= j < i - 1 ensures fs[1..][j].para.id != fs[i].para.id {
        assert fs[1..][j] == fs[j + 1];
      }
      TextOfAt(fs[1..], i - 1);
    }
  }

  // ---------------------------------------------------------------------------
  // Rows

  /** The `t`-th table without its row `r`; a table left without rows goes with it. */
  function RemoveRow(body: seq<Block>, t: nat, r: nat): seq<Block>
    requires t < |Tables(body)| && r < |Tables(body)[t]|
  {
    var rows := Tables(body)[t];
    var rest := rows[..r] + rows[r + 1..];
    ReplaceTable(body, t, if rest == [] then None else Some(rest))
  }

  /** The `t`-th table with `added` rows placed before its row `at`. */
  function InsertRowsAt(body: seq<Block>, t: nat, at: nat, added: seq<Row>): seq<Block>
    requires t < |Tables(body)| && at <= |Tables(body)[t]|
  {
    var rows := Tables(body)[t];
    ReplaceTable(body, t, Some(rows[..at] + added + rows[at..]))
  }

  /** The text for cell (i, j) of a table or row filled from `values` (a string[][]), "" where it has none. */
  function ValueAt(values: seq<seq<string>>, i: nat, j: nat): string {
    if i < |values| && j < |values[i]| then values[i][j] else ""
  }

  /** `count` new rows of `width` cells, each cell one paragraph holding its value; the
      paragraphs get the handles `next`, `next + 1`, ... row by row. */
  function NewRows(count: nat, width: nat, values: seq<seq<string>>, next: nat): (rows: seq<Row>)
    ensures |rows| == count
    ensures forall i :: 0 <= i < count ==> |rows[i]| == width
    ensures forall i, j :: 0 <= i < count && 0 <= j < width ==>
      rows[i][j] == [Paragraph(next + i * width + j, PlainGlyphs(ValueAt(values, i, j)))]
  {
    seq(count, i requires 0 <= i < count =>
      seq(width, j requires 0 <= j < width => [Paragraph(next + i * width + j, PlainGlyphs(ValueAt(values, i, j)))]))
  }

  // ---------------------------------------------------------------------------
  // Finding a paragraph's block

  lemma {:induction false} CellsFlatLength(cells: Row, t: nat, r: nat, c: nat, t': nat, r': nat, c': nat)
    ensures |CellsFlat(cells, t, r, c)| == |CellsFlat(cells, t', r', c')|
    decreases |cells|
  {
    if cells != [] {
      CellsFlatLength(cells[1..], t, r, c + 1, t', r', c' + 1);
    }
  }

  lemma {:induction false} RowsFlatLength(rows: seq<Row>, t: nat, r: nat, t': nat, r': nat)
    ensures |RowsFlat(rows, t, r)| == |RowsFlat(rows, t', r')|
    decreases |rows|
  {
    if rows != [] {
      CellsFlatLength(rows[0], t, r, 0, t', r', 0);
      RowsFlatLength(rows[1..], t, r + 1, t', r' + 1);
    }
  }

  /** The new rows' handles are the `count * width` numbers from `next` on. */
  lemma NewRowsHandles(count: nat, width: nat, values: seq<seq<string>>, next: nat)
    ensures var rows := NewRows(count, width, values, next);
      forall i, j :: 0 <= i < count && 0 <= j < width ==>
        |rows[i][j]| == 1 && Text(rows[i][j][0]) == ValueAt(values, i, j)
        && next <= rows[i][j][0].id < next + count * width
  {
    var rows: seq<Row> := NewRows(count, width, values, next);
    forall i, j | 0 <= i < count && 0 <= j < width
      ensures Text(rows[i][j][0]) == ValueAt(values, i, j)
      ensures rows[i][j][0].id < next + count * width
    {
      CellIdBelow(count, width, i, j);
    }
  }

  /** Cell `(i, j)` of a `count` by `width` grid comes before the end of the grid. */
  lemma CellIdBelow(count: nat, width: nat, i: nat, j: nat)
    requires i < count && j < width
    ensures i * width + j < count * width
  {
    assert i * width + width == (i + 1) * width;
    assert (i + 1) * width <= count * width;
  }

  /** The number of paragraphs a block holds. */
  function BlockSize(b: Block): nat {
    |BlockFlat(b, 0)|
  }

  /** The block index of flat paragraph `n` when that paragraph stands outside tables;
      None when it is a table paragraph or there is no such paragraph. */
  function PlainBlockOf(body: seq<Block>, n: nat): Option<nat>
    decreases |body|
  {
    if body == [] then None
    else if n < BlockSize(body[0]) then (if body[0].Plain? then Some(0) else None)
    else match PlainBlockOf(body[1..], n - BlockSize(body[0]))
      case None => None
      case Some(k) => Some(k + 1)
  }

  lemma {:induction false} PlainBlockOfFrom(body: seq<Block>, n: nat, t: nat)
    ensures PlainBlockOf(body, n).Some? ==>
      var k := PlainBlockOf(body, n).value;
      k < |body| && body[k].Plain? && n < |FlatFrom(body, t)| && FlatFrom(body, t)[n] == FlatPara(body[k].para, None)
    ensures PlainBlockOf(body, n).None? && n < |FlatFrom(body, t)| ==> FlatFrom(body, t)[n].cell.Some?
    decreases |body|
  {
    if body != [] {
      var head := BlockFlat(body[0], t);
      var t' := t + TableStep(body[0]);
      assert FlatFrom(body, t) == head + FlatFrom(body[1..], t');
      if body[0].Table? {
        RowsFlatLength(body[0].rows, t, 0, 0, 0);
        RowsFlatCells(body[0].rows, t, 0);
      }
      assert |head| == BlockSize(body[0]);
      if n >= BlockSize(body[0]) {
        PlainBlockOfFrom(body[1..], n - BlockSize(body[0]), t');
      }
    }
  }

  /** Every paragraph of a table sits in a cell. */
  lemma {:induction false} RowsFlatCells(rows: seq<Row>, t: nat, r: nat)
    ensures forall i :: 0 <= i < |RowsFlat(rows, t, r)| ==> RowsFlat(rows, t, r)[i].cell.Some?
    decreases |rows|
  {
    if rows != [] {
      RowsFlatCells(rows[1..], t, r + 1);
      CellsFlatCells(rows[0], t, r, 0);
    }
  }

  lemma {:induction false} CellsFlatCells(cells: Row, t: nat, r: nat, c: nat)
    ensures forall i :: 0 <= i < |CellsFlat(cells, t, r, c)| ==> CellsFlat(cells, t, r, c)[i].cell.Some?
    decreases |cells|
  {
    if cells != [] {
      CellsFlatCells(cells[1..], t, r, c + 1);
    }
  }

  /** Paragraph `p` is one of the flat paragraphs `fs`. */
  predicate HasPara(fs: seq<FlatPara>, p: Paragraph) {
    exists j :: 0 <= j < |fs| && fs[j].para == p
  }

  lemma HasParaAppend(a: seq<FlatPara>, b: seq<FlatPara>, p: Paragraph)
    requires HasPara(a, p) || HasPara(b, p)
    ensures HasPara(a + b, p)
  {
    if HasPara(a, p) {
      var j :| 0 <= j < |a| && a[j].para == p;
      assert (a + b)[j] == a[j];
    } else {
      var j :| 0 <= j < |b| && b[j].para == p;
      assert (a + b)[|a| + j] == b[j];
    }
  }

  lemma {:induction false} CellsFlatHas(cells: Row, t: nat, r: nat, c0: nat, c: nat, k: nat)
    requires c < |cells| && k < |cells[c]|
    ensures HasPara(CellsFlat(cells, t, r, c0), cells[c][k])
    decreases |cells|
  {
    var head, tail := CellFlat(cells[0], t, r, c0), CellsFlat(cells[1..], t, r, c0 + 1);
    if c == 0 {
      assert head[k].para == cells[0][k];
    } else {
      assert cells[1..][c - 1] == cells[c];
      CellsFlatHas(cells[1..], t, r, c0 + 1, c - 1, k);
    }
    HasParaAppend(head, tail, cells[c][k]);
  }

  lemma {:induction false} RowsFlatHas(rows: seq<Row>, t: nat, r0: nat, r: nat, c: nat, k: nat)
    requires r < |rows| && c < |rows[r]| && k < |rows[r][c]|
    ensures HasPara(RowsFlat(rows, t, r0), rows[r][c][k])
    decreases |rows|
  {
    var head, tail := CellsFlat(rows[0], t, r0, 0), RowsFlat(rows[1..], t, r0 + 1);
    if r == 0 {
      CellsFlatHas(rows[0], t, r0, 0, c, k);
    } else {
      assert rows[1..][r - 1] == rows[r];
      RowsFlatHas(rows[1..], t, r0 + 1, r - 1, c, k);
    }
    HasParaAppend(head, tail, rows[r][c][k]);
  }

  /** Every paragraph of every table is one of `body.paragraphs`. */
  lemma {:induction false} TableParaInFlat(body: seq<Block>, t0: nat, t: nat, r: nat, c: nat, k: nat)
    requires t < |Tables(body)| && r < |Tables(body)[t]| && c < |Tables(body)[t][r]| && k < |Tables(body)[t][r][c]|
    ensures HasPara(FlatFrom(body, t0), Tables(body)[t][r][c][k])
    decreases |body|
  {
    var p := Tables(body)[t][r][c][k];
    var head, tail := BlockFlat(body[0], t0), FlatFrom(body[1..], t0 + TableStep(body[0]));
    if body[0].Table? && t == 0 {
      assert Tables(body)[0] == body[0].rows;
      RowsFlatHas(body[0].rows, t0, 0, r, c, k);
    } else {
      var t' := t - TableStep(body[0]);
      assert Tables(body)[t] == Tables(body[1..])[t'];
      TableParaInFlat(body[1..], t0 + TableStep(body[0]), t', r, c, k);
    }
    HasParaAppend(head, tail, p);
  }

  /** `PlainBlockOf` finds the block of exactly the flat paragraph asked for, and fails only on table paragraphs. */
  lemma PlainBlockOfFlat(body: seq<Block>, n: nat)
    ensures PlainBlockOf(body, n).Some? ==>
      var k := PlainBlockOf(body, n).value;
      k < |body| && body[k].Plain? && n < |Flat(body)| && Flat(body)[n] == FlatPara(body[k].para, None)
    ensures PlainBlockOf(body, n).None? && n < |Flat(body)| ==> Flat(body)[n].cell.Some?
  {
    PlainBlockOfFrom(body, n, 0);
  }

  /** A paragraph with no content, as Word adds one after a table so that the table is not followed by a table or by the end. */
  function EmptyParagraph(id: nat): Paragraph {
    Paragraph(id, [])
  }

  /** `insertTable(..., "After", ...)` on the paragraph of block `k`: the new table follows the
      paragraph, and an empty paragraph follows the table unless a paragraph already does. */
  function InsertTableAfter(body: seq<Block>, k: nat, rows: seq<Row>, padId: nat): seq<Block>
    requires k < |body|
  {
    var pad := if k + 1 < |body| && body[k + 1].Plain? then [] else [Plain(EmptyParagraph(padId))];
    body[..k + 1] + [Table(rows)] + pad + body[k + 1..]
  }

  /** Inserting a table after a paragraph keeps tables apart. */
  lemma InsertTableAfterSeparated(body: seq<Block>, k: nat, rows: seq<Row>, padId: nat)
    requires k < |body| && body[k].Plain? && Separated(body)
    ensures Separated(InsertTableAfter(body, k, rows, padId))
  {
    var r := InsertTableAfter(body, k, rows, padId);
    var pad := if k + 1 < |body| && body[k + 1].Plain? then [] else [Plain(EmptyParagraph(padId))];
    var p := |pad|;
    var front := body[..k + 1] + [Table(rows)] + pad;
    assert r == front + body[k + 1..];
    assert |front| == k + 2 + p;
    forall i | 0 <= i < |r| - 1 ensures r[i].Plain? || r[i + 1].Plain? {
      if i < k {
        assert r[i] == body[i] && r[i + 1] == body[i + 1];
      } else if i == k {
        assert r[i] == body[k];
      } else if i == k + 1 {
        if p == 1 {
          assert r[i + 1] == pad[0];
        } else {
          assert r[i + 1] == body[k + 1];
        }
      } else if i == k + 2 && p == 1 {
        assert r[i] == pad[0];
      } else {
        assert i >= k + 2 + p;
        assert r[i] == body[k + 1..][i - |front|] == body[i - 1 - p];
        assert r[i + 1] == body[k + 1..][i + 1 - |front|] == body[i - p];
      }
    }
  }

  /** Inserting a table after a paragraph adds it to the table list after the tables before it. */
  lemma InsertTableAfterTables(body: seq<Block>, k: nat, rows: seq<Row>, padId: nat)
    requires k < |body|
    ensures Tables(InsertTableAfter(body, k, rows, padId))
         == Tables(body[..k + 1]) + [rows] + Tables(body[k + 1..])
    ensures Tables(body) == Tables(body[..k + 1]) + Tables(body[k + 1..])
  {
    var pad := if k + 1 < |body| && body[k + 1].Plain? then [] else [Plain(EmptyParagraph(padId))];
    var before, after := body[..k + 1], body[k + 1..];
    var tb, ta := Tables(before), Tables(after);
    var withTable := before + [Table(rows)];
    TablesAppend(before, [Table(rows)]);
    assert Tables([Table(rows)]) == [rows];
    assert Tables(withTable) == tb + [rows];
    TablesAppend(withTable, pad);
    assert Tables(pad) == [];
    assert Tables(withTable + pad) == tb + [rows];
    TablesAppend(withTable + pad, after);
    assert InsertTableAfter(body, k, rows, padId) == withTable + pad + after;
    TablesAppend(before, after);
    assert before + after == body;
  }
}
