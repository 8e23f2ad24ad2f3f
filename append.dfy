/** `executeAppend`: inserts `new_text` at the end of the resolved range, resolving against
    the live paragraph list. */
module AppendAction {
  import opened Wrappers
  import opened Strings
  import opened LocationGrammar
  import opened Document
  import opened Ranges
  import opened Resolver
  import opened Host
  import opened Actions
  import opened RangeActions

  const Operation: string := "Append"

  /** Nothing for an empty `loc`; otherwise `resolveLocation` without a paragraph collection,
      then `insertText(new_text, "End")`, every error wrapped. */
  function Append(d: Doc, a: Action): Result<Doc> {
    if a.loc == "" then Success(d)
    else match ResolveLocation(d.body, a.loc, a.withinPara, None)
      case Failure(e) => Failure(OperationFailed(Operation, e))
      case Success(range) => Success(d.(body := AppendText(d.body, range, a.newText)))
  }

  method ExecuteAppend(word: WordDocument, action: Action, paragraphs: ParagraphCollection) returns (outcome: Outcome)
    modifies word
    ensures Completes(Append(old(word.State()), action), old(word.State()), word.State(), outcome)
    ensures word.changeTrackingMode == old(word.changeTrackingMode)
  {
    var loc := action.loc;
    if loc == "" {
      return Pass;
    }
    var range := ResolveLocation(word.body, loc, action.withinPara, None);
    if range.Failure? {
      return Fail(OperationFailed(Operation, range.error));
    }
    word.InsertTextAtEnd(range.value, action.newText);
    outcome := Pass;
  }

  /** On the key of paragraph `i` the text goes at the end of that paragraph and nowhere else. */
  lemma AppendToParagraph(d: Doc, a: Action, docPos: nat, i: nat)
    requires a.loc == ParagraphKey(docPos, i) && a.withinPara.None?
    requires i < |Flat(d.body)| && HandlesUnique(d.body)
    ensures Append(d, a).Success?
    ensures var before, after := Flat(d.body), Flat(Append(d, a).value.body);
      |after| == |before| &&
      forall j :: 0 <= j < |before| ==>
        after[j].cell == before[j].cell && after[j].para.id == before[j].para.id &&
        Text(after[j].para) == if j == i then Text(before[j].para) + a.newText else Text(before[j].para)
  {
    ParagraphKeyTarget(d.body, docPos, i, None);
    var p := Flat(d.body)[i].para;
    AppendTextEffect(d.body, ParagraphRange(p.id), a.newText);
    assert Text(p)[..|p.glyphs|] == Text(p);
  }

  /** With `withinPara` on the key of paragraph `i`: no match, or an occurrence outside
      [0, matches), fails with the resolver's message; otherwise the text goes at the end of that match. */
  lemma AppendWithinResult(d: Doc, a: Action, docPos: nat, i: nat, w: Within)
    requires a.loc == ParagraphKey(docPos, i) && a.withinPara == Some(w)
    requires i < |Flat(d.body)| && HandlesUnique(d.body)
    ensures var p := Flat(d.body)[i].para;
      var occ := Occurrences(Text(p), w.find);
      Append(d, a) ==
        if |occ| == 0 then Failure(OperationFailed(Operation, SearchNotFound(w.find, a.loc)))
        else if w.occurrence < 0 || w.occurrence >= |occ| then
          Failure(OperationFailed(Operation, OccurrenceOutOfRange(w.occurrence, w.find, a.loc, |occ|)))
        else Success(d.(body := AppendText(d.body, SubRange(p.id, occ[w.occurrence], |w.find|), a.newText)))
  {
    WithinKeyTarget(d.body, docPos, i, w, None);
  }

  /** With `withinPara`, the handler succeeds exactly when the occurrence asked for exists, and
      then puts the text right after that match and nowhere else. */
  lemma AppendWithin(d: Doc, a: Action, docPos: nat, i: nat, w: Within)
    requires a.loc == ParagraphKey(docPos, i) && a.withinPara == Some(w)
    requires i < |Flat(d.body)| && HandlesUnique(d.body)
    ensures var occ := Occurrences(Text(Flat(d.body)[i].para), w.find);
      Append(d, a).Success? <==> 0 <= w.occurrence < |occ|
    ensures Append(d, a).Success? ==>
      var before, after := Flat(d.body), Flat(Append(d, a).value.body);
      var text := Text(before[i].para);
      var start := Occurrences(text, w.find)[w.occurrence];
      var end := start + |w.find|;
      OccursAt(text, w.find, start) &&
      |after| == |before| &&
      forall j :: 0 <= j < |before| ==>
        after[j].cell == before[j].cell && after[j].para.id == before[j].para.id &&
        Text(after[j].para) == if j == i then text[..end] + a.newText + text[end..] else Text(before[j].para)
  {
    AppendWithinResult(d, a, docPos, i, w);
    AppendAtOccurrence(d, i, w, a.loc, a.newText, Append(d, a));
  }

  /** The outcome `AppendWithinResult` describes, read off the occurrences of the found text. */
  lemma AppendAtOccurrence(d: Doc, i: nat, w: Within, loc: string, newText: string, r: Result<Doc>)
    requires i < |Flat(d.body)| && HandlesUnique(d.body)
    requires var p := Flat(d.body)[i].para;
      var occ := Occurrences(Text(p), w.find);
      r == if |occ| == 0 then Failure(OperationFailed(Operation, SearchNotFound(w.find, loc)))
        else if w.occurrence < 0 || w.occurrence >= |occ| then
          Failure(OperationFailed(Operation, OccurrenceOutOfRange(w.occurrence, w.find, loc, |occ|)))
        else Success(d.(body := AppendText(d.body, SubRange(p.id, occ[w.occurrence], |w.find|), newText)))
    ensures var occ := Occurrences(Text(Flat(d.body)[i].para), w.find);
      r.Success? <==> 0 <= w.occurrence < |occ|
    ensures r.Success? ==>
      var before, after := Flat(d.body), Flat(r.value.body);
      var text := Text(before[i].para);
      var start := Occurrences(text, w.find)[w.occurrence];
      var end := start + |w.find|;
      OccursAt(text, w.find, start) &&
      |after| == |before| &&
      forall j :: 0 <= j < |before| ==>
        after[j].cell == before[j].cell && after[j].para.id == before[j].para.id &&
        Text(after[j].para) == if j == i then text[..end] + newText + text[end..] else Text(before[j].para)
  {
    var p := Flat(d.body)[i].para;
    var occ := Occurrences(Text(p), w.find);
    if 0 <= w.occurrence < |occ| {
      OccurrenceInText(Text(p), w.find, w.occurrence);
      AppendAfterRun(d.body, i, occ[w.occurrence], |w.find|, newText);
    }
  }
}
