/** `executePrepend`: inserts `new_text` at the start of a paragraph of the engine's
    collection, addressed as `p{n}`. */
module PrependAction {
  import opened Wrappers
  import opened Strings
  import opened LocationGrammar
  import opened Document
  import opened Ranges
  import opened Resolver
  import opened Host
  import opened Actions
  import opened RangeActions

  const Operation: string := "Prepend"

  /** Nothing for an empty `loc`; otherwise the parse, the range check against the collection
      and `insertText(new_text, "Start")` on that paragraph's content. */
  function Prepend(d: Doc, items: seq<nat>, a: Action): Result<Doc> {
    PatternCaptureCounts();
    if a.loc == "" then Success(d)
    else match Match(BareParagraphPattern, a.loc)
      case None => Failure(OperationFailed(Operation, InvalidLocation(a.loc)))
      case Some(nums) =>
        var n := nums[0];
        if n >= |items| then Failure(OperationFailed(Operation, ParagraphOutOfRange(n, |items|)))
        else Success(d.(body := PrependText(d.body, items[n], a.newText)))
  }

  method ExecutePrepend(word: WordDocument, action: Action, paragraphs: ParagraphCollection) returns (outcome: Outcome)
    modifies word
    ensures Completes(Prepend(old(word.State()), paragraphs.items, action), old(word.State()), word.State(), outcome)
    ensures word.changeTrackingMode == old(word.changeTrackingMode)
  {
    PatternCaptureCounts();
    var loc := action.loc;
    if loc == "" {
      return Pass;
    }
    var paraMatch := Match(BareParagraphPattern, loc);
    if paraMatch.None? {
      return Fail(OperationFailed(Operation, InvalidLocation(loc)));
    }
    var paragraphIndex := paraMatch.value[0];
    if paragraphIndex >= |paragraphs.items| {
      return Fail(OperationFailed(Operation, ParagraphOutOfRange(paragraphIndex, |paragraphs.items|)));
    }
    word.InsertTextAtStart(paragraphs.items[paragraphIndex], action.newText);
    outcome := Pass;
  }

  /** On the key `p{n}` the handler checks `n` against the collection and prepends to its `n`-th paragraph. */
  lemma PrependByKey(d: Doc, items: seq<nat>, a: Action, n: nat)
    requires a.loc == BareParagraphKey(n)
    ensures Prepend(d, items, a) ==
      if n >= |items| then Failure(OperationFailed(Operation, ParagraphOutOfRange(n, |items|)))
      else Success(d.(body := PrependText(d.body, items[n], a.newText)))
  {
    BareParagraphKeyMatches(n);
  }

  /** The keys the document index hands out start with a docPosition, and the handler refuses every one of them. */
  lemma PrependRejectsPrefixed(d: Doc, items: seq<nat>, a: Action)
    requires |a.loc| > 0 && IsDigit(a.loc[0])
    ensures Prepend(d, items, a) == Failure(OperationFailed(Operation, InvalidLocation(a.loc)))
  {
    PrefixedKeysAreNotBare(a.loc);
  }

  /** With a freshly loaded collection, `p{n}` puts the text in front of paragraph `n` and nowhere else. */
  lemma PrependEffect(d: Doc, a: Action, n: nat)
    requires a.loc == BareParagraphKey(n) && n < |Flat(d.body)| && HandlesUnique(d.body)
    ensures Prepend(d, FlatIds(d.body), a).Success?
    ensures var before, after := Flat(d.body), Flat(Prepend(d, FlatIds(d.body), a).value.body);
      |after| == |before| &&
      forall j :: 0 <= j < |before| ==>
        after[j].cell == before[j].cell && after[j].para.id == before[j].para.id &&
        Text(after[j].para) == if j == n then a.newText + Text(before[j].para) else Text(before[j].para)
  {
    PrependByKey(d, FlatIds(d.body), a, n);
    ParagraphKeyTarget(d.body, 0, n, None);
    PrependTextEffect(d.body, FlatIds(d.body)[n], a.newText);
  }
}
