/** What the range-based handlers (append, delete, highlight, bold, strikethrough) share:
    how the indexer's paragraph keys resolve once every paragraph has its own handle, and
    what styling a whole paragraph does. */
module RangeActions {
  import opened Wrappers
  import opened LocationGrammar
  import opened Document
  import opened Ranges
  import opened Resolver

  /** The paragraph collection the handler is given: none (the live list is read) or one loaded from this body. */
  predicate CurrentItems(body: seq<Block>, preloaded: Option<seq<nat>>) {
    preloaded.None? || preloaded == Some(FlatIds(body))
  }

  /** A paragraph key names that paragraph's range, and no other paragraph shares its handle. */
  lemma ParagraphKeyTarget(body: seq<Block>, docPos: nat, i: nat, preloaded: Option<seq<nat>>)
    requires i < |Flat(body)| && HandlesUnique(body) && CurrentItems(body, preloaded)
    ensures ResolveLocation(body, ParagraphKey(docPos, i), None, preloaded)
         == Success(ParagraphRange(Flat(body)[i].para.id))
    ensures forall j :: 0 <= j < |Flat(body)| ==> (Flat(body)[j].para.id == Flat(body)[i].para.id <==> j == i)
  {
    ResolveParagraphKey(body, docPos, i, preloaded);
    HandleAt(body, i);
  }

  /** Under unique handles, paragraph `i` is the only one carrying its handle. */
  lemma HandleAt(body: seq<Block>, i: nat)
    requires i < |Flat(body)| && HandlesUnique(body)
    ensures forall j :: 0 <= j < |Flat(body)| ==> (Flat(body)[j].para.id == Flat(body)[i].para.id <==> j == i)
  {
    var ids := FlatIds(body);
    forall j | 0 <= j < |Flat(body)| && j != i ensures Flat(body)[j].para.id != Flat(body)[i].para.id {
      if j < i { assert ids[j] != ids[i]; } else { assert ids[i] != ids[j]; }
    }
  }

  /** With `withinPara`, a paragraph key narrows that paragraph's current text. */
  lemma WithinKeyTarget(body: seq<Block>, docPos: nat, i: nat, w: Within, preloaded: Option<seq<nat>>)
    requires i < |Flat(body)| && HandlesUnique(body) && CurrentItems(body, preloaded)
    ensures var key := ParagraphKey(docPos, i);
      ResolveLocation(body, key, Some(w), preloaded)
        == Narrow(Found(Flat(body)[i].para.id, Text(Flat(body)[i].para)), key, Some(w))
  {
    var key := ParagraphKey(docPos, i);
    ParagraphKeyMatches(docPos, i);
    LocationFormsExclusive(key);
    ParagraphKeyTarget(body, docPos, i, preloaded);
    TextOfAt(Flat(body), i);
  }

  /** Every paragraph keeps its place, its handle and its text. */
  predicate SameTexts(before: seq<FlatPara>, after: seq<FlatPara>) {
    |after| == |before| &&
    forall j :: 0 <= j < |before| ==>
      after[j].cell == before[j].cell && after[j].para.id == before[j].para.id && Text(after[j].para) == Text(before[j].para)
  }

  /** Paragraph `i` has every glyph restyled with `st`, and every other paragraph is as it was. */
  predicate StyledOnly(before: seq<FlatPara>, after: seq<FlatPara>, i: nat, st: Style)
    requires i < |before|
  {
    SameTexts(before, after)
    && (forall j :: 0 <= j < |before| && j != i ==> after[j].para == before[j].para)
    && |after[i].para.glyphs| == |before[i].para.glyphs|
    && forall g :: 0 <= g < |before[i].para.glyphs| ==>
         after[i].para.glyphs[g] == Styled(before[i].para.glyphs[g], st)
  }

  /** Formatting any range changes no paragraph's text. */
  lemma FormatKeepsTexts(body: seq<Block>, target: Target, st: Style)
    ensures SameTexts(Flat(body), Flat(Format(body, target, st)))
  {
    FormatEffect(body, target, st);
  }

  /** Styling a whole paragraph styles each of its glyphs, keeps its text, and leaves every
      other paragraph exactly as it was. */
  lemma StyleParagraph(body: seq<Block>, i: nat, st: Style)
    requires i < |Flat(body)| && HandlesUnique(body)
    ensures StyledOnly(Flat(body), Flat(Format(body, ParagraphRange(Flat(body)[i].para.id), st)), i, st)
  {
    var before := Flat(body);
    var target := ParagraphRange(before[i].para.id);
    var after := Flat(Format(body, target, st));
    HandleAt(body, i);
    FormatEffect(body, target, st);
    forall j | 0 <= j < |before| && j != i ensures after[j].para == before[j].para {
      assert !Covers(target, before[j].para, before[j].cell);
      assert after[j].para.glyphs == before[j].para.glyphs;
    }
    var p := before[i].para;
    assert Covers(target, p, before[i].cell) && SpanLo(target, p) == 0 && SpanHi(target, p) == |p.glyphs|;
  }

  /** Inserting after a run of paragraph `i` puts the text right after the run in that
      paragraph and changes no other paragraph's text. */
  lemma AppendAfterRun(body: seq<Block>, i: nat, start: nat, length: nat, text: string)
    requires i < |Flat(body)| && HandlesUnique(body)
    requires start + length <= |Text(Flat(body)[i].para)|
    ensures var before := Flat(body);
      var after := Flat(AppendText(body, SubRange(before[i].para.id, start, length), text));
      var t, end := Text(before[i].para), start + length;
      |after| == |before| &&
      forall j :: 0 <= j < |before| ==>
        after[j].cell == before[j].cell && after[j].para.id == before[j].para.id &&
        Text(after[j].para) == if j == i then t[..end] + text + t[end..] else Text(before[j].para)
  {
    var before := Flat(body);
    var p := before[i].para;
    var target := SubRange(p.id, start, length);
    HandleAt(body, i);
    assert SpanHi(target, p) == start + length;
    AppendTextEffect(body, target, text);
  }

  /** Deleting a run of paragraph `i` removes exactly that run from that paragraph and changes
      no other paragraph's text. */
  lemma DeleteRun(body: seq<Block>, i: nat, start: nat, length: nat)
    requires i < |Flat(body)| && HandlesUnique(body)
    requires start + length <= |Text(Flat(body)[i].para)|
    ensures var before := Flat(body);
      var after := Flat(DeleteRange(body, SubRange(before[i].para.id, start, length)));
      var t := Text(before[i].para);
      |after| == |before| &&
      forall j :: 0 <= j < |before| ==>
        after[j].cell == before[j].cell && after[j].para.id == before[j].para.id &&
        Text(after[j].para) == if j == i then t[..start] + t[start + length..] else Text(before[j].para)
  {
    var before := Flat(body);
    var p := before[i].para;
    var target := SubRange(p.id, start, length);
    HandleAt(body, i);
    assert SpanLo(target, p) == start && SpanHi(target, p) == start + length;
    DeleteTextEffect(body, target);
  }
}
