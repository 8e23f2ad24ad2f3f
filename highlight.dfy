/** `executeHighlight`: colours the highlight yellow on the resolved range, resolving against the live paragraph list. */
module HighlightAction {
  import opened Wrappers
  import opened LocationGrammar
  import opened Document
  import opened Ranges
  import opened Resolver
  import opened Host
  import opened Actions
  import opened RangeActions

  const Operation: string := "Highlight"

  /** `range.font.highlightColor = "Yellow"`. */
  const Color: string := "Yellow"
  const Yellow: Style := Style.Highlight(Color)

  /** Nothing for an empty `loc`; otherwise `resolveLocation` without a paragraph collection, then `font.highlightColor = "Yellow"`. */
  function Highlight(d: Doc, a: Action): Result<Doc> {
    if a.loc == "" then Success(d)
    else match ResolveLocation(d.body, a.loc, a.withinPara, None)
      case Failure(e) => Failure(OperationFailed(Operation, e))
      case Success(range) => Success(d.(body := Format(d.body, range, Yellow)))
  }

  method ExecuteHighlight(word: WordDocument, action: Action, paragraphs: ParagraphCollection) returns (outcome: Outcome)
    modifies word
    ensures Completes(Highlight(old(word.State()), action), old(word.State()), word.State(), outcome)
    ensures word.changeTrackingMode == old(word.changeTrackingMode)
  {
    var loc := action.loc;
    if loc == "" {
      return Pass;
    }
    var range := ResolveLocation(word.body, loc, action.withinPara, None);
    if range.Failure? {
      return Fail(OperationFailed(Operation, range.error));
    }
    word.SetFont(range.value, Yellow);
    outcome := Pass;
  }

  /** Whatever the location, the handler changes formatting only: every paragraph keeps its text. */
  lemma HighlightKeepsTexts(d: Doc, a: Action)
    ensures Highlight(d, a).Success? ==> SameTexts(Flat(d.body), Flat(Highlight(d, a).value.body))
  {
    if a.loc != "" {
      var range := ResolveLocation(d.body, a.loc, a.withinPara, None);
      if range.Success? {
        FormatKeepsTexts(d.body, range.value, Yellow);
      }
    }
  }

  /** On the key of paragraph `i`, every glyph of that paragraph is highlighted yellow and nothing else changes. */
  lemma HighlightParagraph(d: Doc, a: Action, docPos: nat, i: nat)
    requires a.loc == ParagraphKey(docPos, i) && a.withinPara.None?
    requires i < |Flat(d.body)| && HandlesUnique(d.body)
    ensures Highlight(d, a).Success?
    ensures StyledOnly(Flat(d.body), Flat(Highlight(d, a).value.body), i, Yellow)
  {
    ParagraphKeyTarget(d.body, docPos, i, None);
    StyleParagraph(d.body, i, Yellow);
  }
}
