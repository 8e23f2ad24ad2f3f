/** The ranges `resolveLocation` returns and the edits the handlers make through them:
    `insertText`, `delete`, and the `font` properties. */
module Ranges {
  import opened Wrappers
  import opened Document

  /** A resolved location: a whole table, a table row, a paragraph, or a found
      `length`-character run starting at `start` inside a paragraph. Paragraphs are
      named by their handle. */
  datatype Target =
    | TableRange(table: nat)
    | RowRange(table: nat, row: nat)
    | ParagraphRange(id: nat)
    | SubRange(id: nat, start: nat, length: nat)

  /** The range takes in (part of) paragraph `p`, which sits at `cell`. */
  predicate Covers(target: Target, p: Paragraph, cell: Option<CellAt>) {
    match target
    case TableRange(t) => cell.Some? && cell.value.table == t
    case RowRange(t, r) => cell.Some? && cell.value.table == t && cell.value.row == r
    case ParagraphRange(id) => p.id == id
    case SubRange(id, _, _) => p.id == id
  }

  function Min(a: nat, b: nat): nat {
    if a <= b then a else b
  }

  /** Where the range starts within a paragraph it covers. */
  function SpanLo(target: Target, p: Paragraph): (lo: nat)
    ensures lo <= |p.glyphs|
  {
    if target.SubRange? then Min(target.start, |p.glyphs|) else 0
  }

  /** Where the range ends within a paragraph it covers. */
  function SpanHi(target: Target, p: Paragraph): (hi: nat)
    ensures SpanLo(target, p) <= hi <= |p.glyphs|
  {
    if target.SubRange? then Min(target.start + target.length, |p.glyphs|) else |p.glyphs|
  }

  /** Paragraph `p` with its glyphs from `lo` to `hi` rewritten by `g`. */
  function Splice(p: Paragraph, lo: nat, hi: nat, g: seq<Glyph> -> seq<Glyph>): (q: Paragraph)
    requires lo <= hi <= |p.glyphs|
    ensures q.id == p.id
  {
    Paragraph(p.id, p.glyphs[..lo] + g(p.glyphs[lo..hi]) + p.glyphs[hi..])
  }

  /** What a splice does to the text: the untouched text on both sides stays. */
  lemma SpliceText(p: Paragraph, lo: nat, hi: nat, g: seq<Glyph> -> seq<Glyph>)
    requires lo <= hi <= |p.glyphs|
    ensures Text(Splice(p, lo, hi, g)) == Text(p)[..lo] + Chars(g(p.glyphs[lo..hi])) + Text(p)[hi..]
  {
    var gs := p.glyphs;
    CharsAppend(gs[..lo] + g(gs[lo..hi]), gs[hi..]);
    CharsAppend(gs[..lo], g(gs[lo..hi]));
    assert Chars(gs[..lo]) == Text(p)[..lo];
    assert Chars(gs[hi..]) == Text(p)[hi..];
  }

  function EditRange(target: Target, g: seq<Glyph> -> seq<Glyph>): Edit {
    (p: Paragraph, cell: Option<CellAt>) =>
      if Covers(target, p, cell) then Splice(p, SpanLo(target, p), SpanHi(target, p), g) else p
  }

  /** Every paragraph the range covers has its spanned glyphs rewritten by `g`. */
  function ApplyToRange(body: seq<Block>, target: Target, g: seq<Glyph> -> seq<Glyph>): seq<Block> {
    MapParas(body, EditRange(target, g))
  }

  /** An edit through a range touches the covered paragraphs, in place, and nothing else. */
  lemma ApplyToRangeFlat(body: seq<Block>, target: Target, g: seq<Glyph> -> seq<Glyph>)
    ensures var before, after := Flat(body), Flat(ApplyToRange(body, target, g));
      |after| == |before| &&
      forall i :: 0 <= i < |before| ==>
        after[i].cell == before[i].cell &&
        after[i].para == if Covers(target, before[i].para, before[i].cell)
                        then Splice(before[i].para, SpanLo(target, before[i].para), SpanHi(target, before[i].para), g)
                        else before[i].para
    ensures Separated(body) ==> Separated(ApplyToRange(body, target, g))
    ensures |Tables(ApplyToRange(body, target, g))| == |Tables(body)|
  {
    MapParasFlat(body, EditRange(target, g));
    MapFromShape(body, 0, EditRange(target, g));
  }

  // ---------------------------------------------------------------------------
  // Formatting

  datatype Style = Bold | StrikeThrough | Highlight(color: string)

  function Styled(g: Glyph, st: Style): Glyph {
    match st
    case Bold => g.(bold := true)
    case StrikeThrough => g.(strikeThrough := true)
    case Highlight(color) => g.(highlightColor := color)
  }

  function Restyle(st: Style): seq<Glyph> -> seq<Glyph> {
    (gs: seq<Glyph>) => seq(|gs|, i requires 0 <= i < |gs| => Styled(gs[i], st))
  }

  /** `range.font.bold = true` and its siblings. */
  function Format(body: seq<Block>, target: Target, st: Style): seq<Block> {
    ApplyToRange(body, target, Restyle(st))
  }

  /** Restyling a stretch of one paragraph keeps its text and styles exactly that stretch. */
  lemma RestyleSplice(p: Paragraph, lo: nat, hi: nat, st: Style)
    requires lo <= hi <= |p.glyphs|
    ensures var q := Splice(p, lo, hi, Restyle(st));
      Text(q) == Text(p) && |q.glyphs| == |p.glyphs| &&
      forall j :: 0 <= j < |p.glyphs| ==>
        q.glyphs[j] == if lo <= j < hi then Styled(p.glyphs[j], st) else p.glyphs[j]
  {
    var q := Splice(p, lo, hi, Restyle(st));
    var mid := Restyle(st)(p.glyphs[lo..hi]);
    assert q.glyphs == p.glyphs[..lo] + mid + p.glyphs[hi..];
    forall j | 0 <= j < |p.glyphs|
      ensures q.glyphs[j] == if lo <= j < hi then Styled(p.glyphs[j], st) else p.glyphs[j]
    {
      if j < lo {
        assert q.glyphs[j] == p.glyphs[..lo][j];
      } else if j < hi {
        assert q.glyphs[j] == mid[j - lo];
      } else {
        assert q.glyphs[j] == p.glyphs[hi..][j - hi];
      }
    }
    assert Text(q) == Text(p);
  }

  /** Formatting a range changes no text anywhere, styles exactly the spanned glyphs of the
      covered paragraphs, and leaves every other glyph as it was. */
  lemma FormatEffect(body: seq<Block>, target: Target, st: Style)
    ensures var before, after := Flat(body), Flat(Format(body, target, st));
      |after| == |before| &&
      forall i :: 0 <= i < |before| ==>
        var p, q := before[i].para, after[i].para;
        after[i].cell == before[i].cell && q.id == p.id && Text(q) == Text(p) && |q.glyphs| == |p.glyphs| &&
        forall j :: 0 <= j < |p.glyphs| ==>
          q.glyphs[j] == if Covers(target, p, before[i].cell) && SpanLo(target, p) <= j < SpanHi(target, p)
                         then Styled(p.glyphs[j], st) else p.glyphs[j]
  {
    var before := Flat(body);
    ApplyToRangeFlat(body, target, Restyle(st));
    forall i | 0 <= i < |before| && Covers(target, before[i].para, before[i].cell) {
      RestyleSplice(before[i].para, SpanLo(target, before[i].para), SpanHi(target, before[i].para), st);
    }
  }

  // ---------------------------------------------------------------------------
  // Inserting and deleting text

  function InsertAfter(text: string): seq<Glyph> -> seq<Glyph> {
    (gs: seq<Glyph>) => gs + PlainGlyphs(text)
  }

  function InsertBefore(text: string): seq<Glyph> -> seq<Glyph> {
    (gs: seq<Glyph>) => PlainGlyphs(text) + gs
  }

  function Erase(): seq<Glyph> -> seq<Glyph> {
    (gs: seq<Glyph>) => []
  }

  /** The handle of the last paragraph a table or row range covers. */
  function LastCovered(fs: seq<FlatPara>, target: Target): Option<nat>
    decreases |fs|
  {
    if fs == [] then None
    else if Covers(target, fs[|fs| - 1].para, fs[|fs| - 1].cell) then Some(fs[|fs| - 1].para.id)
    else LastCovered(fs[..|fs| - 1], target)
  }

  /** `range.insertText(text, "End")`: after the spanned text of a paragraph or found run;
      for a table or row range, at the end of the last paragraph it covers. */
  function AppendText(body: seq<Block>, target: Target, text: string): seq<Block> {
    match target
    case ParagraphRange(_) => ApplyToRange(body, target, InsertAfter(text))
    case SubRange(_, _, _) => ApplyToRange(body, target, InsertAfter(text))
    case _ =>
      match LastCovered(Flat(body), target)
      case Some(id) => ApplyToRange(body, ParagraphRange(id), InsertAfter(text))
      case None => body
  }

  /** `paragraph.getRange("Content").insertText(text, "Start")`. */
  function PrependText(body: seq<Block>, id: nat, text: string): seq<Block> {
    ApplyToRange(body, ParagraphRange(id), InsertBefore(text))
  }

  /** `range.delete()`: a table or row goes from the structure (a table left without rows
      goes too); a paragraph or found run loses its text. */
  function DeleteRange(body: seq<Block>, target: Target): seq<Block> {
    match target
    case TableRange(t) => if t < |Tables(body)| then ReplaceTable(body, t, None) else body
    case RowRange(t, r) =>
      if t < |Tables(body)| && r < |Tables(body)[t]| then RemoveRow(body, t, r) else body
    case _ => ApplyToRange(body, target, Erase())
  }

  /** Inserting at the end of a paragraph or run puts the text right after the spanned text. */
  lemma AppendTextEffect(body: seq<Block>, target: Target, text: string)
    requires target.ParagraphRange? || target.SubRange?
    ensures var before, after := Flat(body), Flat(AppendText(body, target, text));
      |after| == |before| &&
      forall i :: 0 <= i < |before| ==>
        var p, q := before[i].para, after[i].para;
        after[i].cell == before[i].cell && q.id == p.id &&
        Text(q) == if Covers(target, p, before[i].cell)
                   then Text(p)[..SpanHi(target, p)] + text + Text(p)[SpanHi(target, p)..]
                   else Text(p)
  {
    var before, after := Flat(body), Flat(AppendText(body, target, text));
    ApplyToRangeFlat(body, target, InsertAfter(text));
    forall i | 0 <= i < |before|
      ensures var p, q := before[i].para, after[i].para;
        Text(q) == if Covers(target, p, before[i].cell)
                   then Text(p)[..SpanHi(target, p)] + text + Text(p)[SpanHi(target, p)..]
                   else Text(p)
    {
      var p := before[i].para;
      if Covers(target, p, before[i].cell) {
        InsertAfterText(p, SpanLo(target, p), SpanHi(target, p), text);
      }
    }
  }

  /** Rewriting a span by appending to it puts the text right after the span. */
  lemma InsertAfterText(p: Paragraph, lo: nat, hi: nat, text: string)
    requires lo <= hi <= |p.glyphs|
    ensures Text(Splice(p, lo, hi, InsertAfter(text))) == Text(p)[..hi] + text + Text(p)[hi..]
  {
    SpliceText(p, lo, hi, InsertAfter(text));
    CharsAppend(p.glyphs[lo..hi], PlainGlyphs(text));
    assert Chars(p.glyphs[lo..hi]) == Text(p)[lo..hi];
    assert Text(p)[..lo] + Text(p)[lo..hi] == Text(p)[..hi];
  }

  /** Prepending puts the text in front of the paragraph's text and changes no other paragraph. */
  lemma PrependTextEffect(body: seq<Block>, id: nat, text: string)
    ensures var before, after := Flat(body), Flat(PrependText(body, id, text));
      |after| == |before| &&
      forall i :: 0 <= i < |before| ==>
        var p, q := before[i].para, after[i].para;
        after[i].cell == before[i].cell && q.id == p.id &&
        Text(q) == if p.id == id then text + Text(p) else Text(p)
  {
    var before := Flat(body);
    ApplyToRangeFlat(body, ParagraphRange(id), InsertBefore(text));
    forall i | 0 <= i < |before| && before[i].para.id == id
      ensures Text(Flat(PrependText(body, id, text))[i].para) == text + Text(before[i].para)
    {
      var p := before[i].para;
      SpliceText(p, 0, |p.glyphs|, InsertBefore(text));
      CharsAppend(PlainGlyphs(text), p.glyphs[0..|p.glyphs|]);
      assert p.glyphs[0..|p.glyphs|] == p.glyphs;
    }
  }

  /** Deleting a paragraph or found run removes exactly the spanned text. */
  lemma DeleteTextEffect(body: seq<Block>, target: Target)
    requires target.ParagraphRange? || target.SubRange?
    ensures var before, after := Flat(body), Flat(DeleteRange(body, target));
      |after| == |before| &&
      forall i :: 0 <= i < |before| ==>
        var p, q := before[i].para, after[i].para;
        after[i].cell == before[i].cell && q.id == p.id &&
        Text(q) == if Covers(target, p, before[i].cell)
                   then Text(p)[..SpanLo(target, p)] + Text(p)[SpanHi(target, p)..]
                   else Text(p)
  {
    var before := Flat(body);
    ApplyToRangeFlat(body, target, Erase());
    forall i | 0 <= i < |before| && Covers(target, before[i].para, before[i].cell)
      ensures Text(Flat(DeleteRange(body, target))[i].para)
           == Text(before[i].para)[..SpanLo(target, before[i].para)] + Text(before[i].para)[SpanHi(target, before[i].para)..]
    {
      var p := before[i].para;
      SpliceText(p, SpanLo(target, p), SpanHi(target, p), Erase());
    }
  }
}
