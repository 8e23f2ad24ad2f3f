/** `executeDelete`: deletes the resolved range, resolving against the engine's paragraph collection. */
module DeleteAction {
  import opened Wrappers
  import opened Strings
  import opened LocationGrammar
  import opened Document
  import opened Ranges
  import opened Resolver
  import opened Host
  import opened Actions
  import opened RangeActions
  import DeleteTableAction

  const Operation: string := "Delete"

  /** Nothing for an empty `loc`; otherwise `resolveLocation` with the collection, then `range.delete()`. */
  function Delete(d: Doc, items: seq<nat>, a: Action): Result<Doc> {
    if a.loc == "" then Success(d)
    else match ResolveLocation(d.body, a.loc, a.withinPara, Some(items))
      case Failure(e) => Failure(OperationFailed(Operation, e))
      case Success(range) => Success(d.(body := DeleteRange(d.body, range)))
  }

  method ExecuteDelete(word: WordDocument, action: Action, paragraphs: ParagraphCollection) returns (outcome: Outcome)
    modifies word
    ensures Completes(Delete(old(word.State()), paragraphs.items, action), old(word.State()), word.State(), outcome)
    ensures word.changeTrackingMode == old(word.changeTrackingMode)
  {
    var loc := action.loc;
    if loc == "" {
      return Pass;
    }
    var range := ResolveLocation(word.body, loc, action.withinPara, Some(paragraphs.items));
    if range.Failure? {
      return Fail(OperationFailed(Operation, range.error));
    }
    word.Delete(range.value);
    outcome := Pass;
  }

  /** On the key of paragraph `i` that paragraph is emptied and every other one stays. */
  lemma DeleteParagraph(d: Doc, a: Action, docPos: nat, i: nat)
    requires a.loc == ParagraphKey(docPos, i) && a.withinPara.None?
    requires i < |Flat(d.body)| && HandlesUnique(d.body)
    ensures Delete(d, FlatIds(d.body), a).Success?
    ensures var before, after := Flat(d.body), Flat(Delete(d, FlatIds(d.body), a).value.body);
      |after| == |before| &&
      forall j :: 0 <= j < |before| ==>
        after[j].cell == before[j].cell && after[j].para.id == before[j].para.id &&
        Text(after[j].para) == if j == i then "" else Text(before[j].para)
  {
    ParagraphKeyTarget(d.body, docPos, i, Some(FlatIds(d.body)));
    var p := Flat(d.body)[i].para;
    DeleteTextEffect(d.body, ParagraphRange(p.id));
  }

  /** With `withinPara`, the handler succeeds exactly when the occurrence asked for exists, and
      then removes exactly that match. */
  lemma DeleteWithin(d: Doc, a: Action, docPos: nat, i: nat, w: Within)
    requires a.loc == ParagraphKey(docPos, i) && a.withinPara == Some(w)
    requires i < |Flat(d.body)| && HandlesUnique(d.body)
    ensures var occ := Occurrences(Text(Flat(d.body)[i].para), w.find);
      Delete(d, FlatIds(d.body), a).Success? <==> 0 <= w.occurrence < |occ|
    ensures Delete(d, FlatIds(d.body), a).Success? ==>
      var before, after := Flat(d.body), Flat(Delete(d, FlatIds(d.body), a).value.body);
      var text := Text(before[i].para);
      var start := Occurrences(text, w.find)[w.occurrence];
      OccursAt(text, w.find, start) &&
      |after| == |before| &&
      forall j :: 0 <= j < |before| ==>
        after[j].cell == before[j].cell && after[j].para.id == before[j].para.id &&
        Text(after[j].para) == if j == i then text[..start] + text[start + |w.find|..] else Text(before[j].para)
  {
    WithinKeyTarget(d.body, docPos, i, w, Some(FlatIds(d.body)));
    DeleteAtOccurrence(d, i, w, a.loc, Delete(d, FlatIds(d.body), a));
  }

  /** Deleting what narrowing the found paragraph gives: the match asked for, when it exists. */
  lemma DeleteAtOccurrence(d: Doc, i: nat, w: Within, loc: string, r: Result<Doc>)
    requires i < |Flat(d.body)| && HandlesUnique(d.body)
    requires var p := Flat(d.body)[i].para;
      var nr := Narrow(Found(p.id, Text(p)), loc, Some(w));
      r == if nr.Failure? then Failure(OperationFailed(Operation, nr.error))
           else Success(d.(body := DeleteRange(d.body, nr.value)))
    ensures var occ := Occurrences(Text(Flat(d.body)[i].para), w.find);
      r.Success? <==> 0 <= w.occurrence < |occ|
    ensures r.Success? ==>
      var before, after := Flat(d.body), Flat(r.value.body);
      var text := Text(before[i].para);
      var start := Occurrences(text, w.find)[w.occurrence];
      OccursAt(text, w.find, start) &&
      |after| == |before| &&
      forall j :: 0 <= j < |before| ==>
        after[j].cell == before[j].cell && after[j].para.id == before[j].para.id &&
        Text(after[j].para) == if j == i then text[..start] + text[start + |w.find|..] else Text(before[j].para)
  {
    var p := Flat(d.body)[i].para;
    NarrowIff(Found(p.id, Text(p)), loc, w);
    if r.Success? {
      var start := Occurrences(Text(p), w.find)[w.occurrence];
      DeleteRun(d.body, i, start, |w.find|);
    }
  }

  /** On a whole-table key that exists, `delete` does what `delete_table` does. */
  lemma DeleteAgreesWithDeleteTable(d: Doc, items: seq<nat>, a: Action, docPos: nat, t: nat)
    requires a.loc == TableKey(docPos, t) && t < |Tables(d.body)|
    ensures Delete(d, items, a) == DeleteTableAction.DeleteTable(d, a)
  {
    TableKeyMatches(docPos, t);
  }
}
