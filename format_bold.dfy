/** `executeFormatBold`: sets bold on the resolved range, resolving against the engine's paragraph collection. */
module FormatBoldAction {
  import opened Wrappers
  import opened LocationGrammar
  import opened Document
  import opened Ranges
  import opened Resolver
  import opened Host
  import opened Actions
  import opened RangeActions

  const Operation: string := "Format bold"

  /** Nothing for an empty `loc`; otherwise `resolveLocation` with the collection, then `font.bold = true`. */
  function FormatBold(d: Doc, items: seq<nat>, a: Action): Result<Doc> {
    if a.loc == "" then Success(d)
    else match ResolveLocation(d.body, a.loc, a.withinPara, Some(items))
      case Failure(e) => Failure(OperationFailed(Operation, e))
      case Success(range) => Success(d.(body := Format(d.body, range, Bold)))
  }

  method ExecuteFormatBold(word: WordDocument, action: Action, paragraphs: ParagraphCollection) returns (outcome: Outcome)
    modifies word
    ensures Completes(FormatBold(old(word.State()), paragraphs.items, action), old(word.State()), word.State(), outcome)
    ensures word.changeTrackingMode == old(word.changeTrackingMode)
  {
    var loc := action.loc;
    if loc == "" {
      return Pass;
    }
    var range := ResolveLocation(word.body, loc, action.withinPara, Some(paragraphs.items));
    if range.Failure? {
      return Fail(OperationFailed(Operation, range.error));
    }
    word.SetFont(range.value, Bold);
    outcome := Pass;
  }

  /** Whatever the location, the handler changes formatting only: every paragraph keeps its text. */
  lemma FormatBoldKeepsTexts(d: Doc, items: seq<nat>, a: Action)
    ensures FormatBold(d, items, a).Success? ==> SameTexts(Flat(d.body), Flat(FormatBold(d, items, a).value.body))
  {
    if a.loc != "" {
      var range := ResolveLocation(d.body, a.loc, a.withinPara, Some(items));
      if range.Success? {
        FormatKeepsTexts(d.body, range.value, Bold);
      }
    }
  }

  /** On the key of paragraph `i`, every glyph of that paragraph is bold and nothing else changes. */
  lemma FormatBoldParagraph(d: Doc, a: Action, docPos: nat, i: nat)
    requires a.loc == ParagraphKey(docPos, i) && a.withinPara.None?
    requires i < |Flat(d.body)| && HandlesUnique(d.body)
    ensures FormatBold(d, FlatIds(d.body), a).Success?
    ensures StyledOnly(Flat(d.body), Flat(FormatBold(d, FlatIds(d.body), a).value.body), i, Bold)
  {
    ParagraphKeyTarget(d.body, docPos, i, Some(FlatIds(d.body)));
    StyleParagraph(d.body, i, Bold);
  }
}
