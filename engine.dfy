/** `executeWordAction`: turns tracking on, loads the paragraph collection once, sorts the
    actions by docPosition (highest first), and runs each one (its comment first, then its
    handler), collecting every failure as one error line; any error makes the whole call fail
    with all of them. */
module Engine {
  import opened Wrappers
  import opened Strings
  import opened LocationGrammar
  import opened Document
  import opened Ranges
  import opened Resolver
  import opened Host
  import opened Actions
  import opened Sorting
  import AppendAction
  import DeleteAction
  import HighlightAction
  import FormatBoldAction
  import StrikethroughAction
  import DeleteRowAction
  import InsertRowAction
  import CreateTableAction
  import DeleteTableAction

  /** A handler whose source is not part of this model (`executeReplace`, `executeFormatItalic`),
      given as what it does to the document. */
  type Handler = (Doc, Action, seq<nat>) -> Result<Doc>

  datatype External = External(replace: Handler, formatItalic: Handler)

  /** The document, the paragraph collection, and the error lines so far. */
  datatype RunState = RunState(doc: Doc, items: seq<nat>, errors: seq<string>)

  /** The marker in front of each error line: the source holds the two characters U+00E2 U+0152
      (the UTF-8 bytes of a cross mark read as Windows-1252), then a space. */
  const ErrorMark: string := "\U{00E2}\U{0152} "

  /** `âŒ ${action.action.toUpperCase()}: ${msg}` */
  function ErrorLine(tag: string, msg: string): (line: string)
    ensures StartsWith(line, ErrorMark)
  {
    ErrorMark + ToUpperAscii(tag) + ": " + msg
  }

  /** `getDocPosition(a.loc || "")`, the sort key. */
  function DocPosition(a: Action): int {
    LeadingDocPosition(a.loc)
  }

  /** The comparator `(a, b) => getDocPosition(b.loc) - getDocPosition(a.loc)`. */
  const ByDocPosition: Comparator<Action> := ByKeyDescending(DocPosition)

  /** The action names the `switch` has a case for. */
  const Dispatched: set<string> := {"none", "replace", "append", "delete", "highlight", "format_bold",
    "format_italic", "strikethrough", "delete_row", "insert_row", "create_table", "delete_table"}

  /** The `switch (action.action)`: the handler's result and the collection afterwards. */
  function Dispatch(d: Doc, items: seq<nat>, a: Action, ext: External): (Result<Doc>, seq<nat>) {
    var name := a.action;
    if name == "replace" then (ext.replace(d, a, items), items)
    else if name == "append" then (AppendAction.Append(d, a), items)
    else if name == "delete" then (DeleteAction.Delete(d, items, a), items)
    else if name == "highlight" then (HighlightAction.Highlight(d, a), items)
    else if name == "format_bold" then (FormatBoldAction.FormatBold(d, items, a), items)
    else if name == "format_italic" then (ext.formatItalic(d, a, items), items)
    else if name == "strikethrough" then (StrikethroughAction.Strikethrough(d, items, a), items)
    else if name == "delete_row" then (DeleteRowAction.DeleteRow(d, a), items)
    else if name == "insert_row" then (InsertRowAction.InsertRow(d, a), items)
    else if name == "create_table" then CreateTableAction.CreateTable(d, items, a)
    else if name == "delete_table" then (DeleteTableAction.DeleteTable(d, a), items)
    else (Success(d), items)
  }

  /** The handler's part of one iteration: its edit, or one error line and no edit. */
  function Handle(st: RunState, a: Action, ext: External): RunState {
    var (r, items) := Dispatch(st.doc, st.items, a, ext);
    match r
    case Success(d) => RunState(d, items, st.errors)
    case Failure(e) => RunState(st.doc, items, st.errors + [ErrorLine(a.action, e)])
  }

  /** One iteration of the loop: a comment is resolved through the collection and inserted
      first; when it cannot be resolved the handler does not run. */
  function Step(st: RunState, a: Action, ext: External): RunState {
    if a.comment != "" then
      match ResolveLocation(st.doc.body, a.loc, a.withinPara, Some(st.items))
      case Failure(e) => st.(errors := st.errors + [ErrorLine(a.action, e)])
      case Success(target) =>
        Handle(st.(doc := st.doc.(comments := st.doc.comments + [Comment(target, a.comment)])), a, ext)
    else Handle(st, a, ext)
  }

  /** The loop over the actions in order. */
  function Run(st: RunState, actions: seq<Action>, ext: External): RunState {
    if actions == [] then st else Step(Run(st, actions[..|actions| - 1], ext), actions[|actions| - 1], ext)
  }

  /** After the loop: success when no line was collected, else one error holding them all. */
  function Aggregate(errors: seq<string>): Outcome {
    if errors == [] then Pass else Fail("Some actions failed:\n\n" + Join(errors, "\n\n"))
  }

  /** What a call does to a document: the actions sorted, then run from a fresh collection. */
  function ExecuteWordActions(d: Doc, actions: seq<Action>, ext: External): (Doc, Outcome) {
    var final := Run(RunState(d, FlatIds(d.body), []), Sort(actions, ByDocPosition), ext);
    (final.doc, Aggregate(final.errors))
  }

  method ExecuteAction(word: WordDocument, paragraphs: ParagraphCollection, action: Action, ext: External)
    returns (outcome: Outcome)
    modifies word, paragraphs
    ensures var (r, items) := Dispatch(old(word.State()), old(paragraphs.items), action, ext);
      Completes(r, old(word.State()), word.State(), outcome) && paragraphs.items == items
    ensures word.changeTrackingMode == old(word.changeTrackingMode)
  {
    var name := action.action;
    if name == "replace" {
      var r := ext.replace(word.State(), action, paragraphs.items);
      if r.Failure? {
        return Fail(r.error);
      }
      word.Assign(r.value);
      outcome := Pass;
    } else if name == "format_italic" {
      var r := ext.formatItalic(word.State(), action, paragraphs.items);
      if r.Failure? {
        return Fail(r.error);
      }
      word.Assign(r.value);
      outcome := Pass;
    } else if name == "append" {
      outcome := AppendAction.ExecuteAppend(word, action, paragraphs);
    } else if name == "delete" {
      outcome := DeleteAction.ExecuteDelete(word, action, paragraphs);
    } else if name == "highlight" {
      outcome := HighlightAction.ExecuteHighlight(word, action, paragraphs);
    } else if name == "format_bold" {
      outcome := FormatBoldAction.ExecuteFormatBold(word, action, paragraphs);
    } else if name == "strikethrough" {
      outcome := StrikethroughAction.ExecuteStrikethrough(word, action, paragraphs);
    } else if name == "delete_row" {
      outcome := DeleteRowAction.ExecuteDeleteRow(word, action, paragraphs);
    } else if name == "insert_row" {
      outcome := InsertRowAction.ExecuteInsertRow(word, action, paragraphs);
    } else if name == "create_table" {
      outcome := CreateTableAction.ExecuteCreateTable(word, action, paragraphs);
    } else if name == "delete_table" {
      outcome := DeleteTableAction.ExecuteDeleteTable(word, action, paragraphs);
    } else {
      // "none", and every name without a case, only logs.
      outcome := Pass;
    }
  }

  /** The body of the `for` loop, with its `try`/`catch`. */
  method ExecuteStep(word: WordDocument, paragraphs: ParagraphCollection, action: Action, ext: External,
                     errors: seq<string>) returns (errors': seq<string>)
    modifies word, paragraphs
    ensures RunState(word.State(), paragraphs.items, errors')
         == Step(RunState(old(word.State()), old(paragraphs.items), errors), action, ext)
    ensures word.changeTrackingMode == old(word.changeTrackingMode)
  {
    if action.comment != "" {
      var target := ResolveLocation(word.body, action.loc, action.withinPara, Some(paragraphs.items));
      if target.Failure? {
        return errors + [ErrorLine(action.action, target.error)];
      }
      word.InsertComment(target.value, action.comment);
    }
    var outcome := ExecuteAction(word, paragraphs, action, ext);
    errors' := if outcome.Fail? then errors + [ErrorLine(action.action, outcome.error)] else errors;
  }

  method ExecuteWordAction(word: WordDocument, microsoftActions: seq<Action>, ext: External) returns (outcome: Outcome)
    modifies word
    ensures (word.State(), outcome) == ExecuteWordActions(old(word.State()), microsoftActions, ext)
    ensures word.changeTrackingMode == TrackAll
  {
    var errors: seq<string> := [];
    word.SetTrackingMode("trackAll");
    var paragraphs := new ParagraphCollection.Loaded(word);
    var sortedActions := Sort(microsoftActions, ByDocPosition);
    ghost var start := RunState(word.State(), paragraphs.items, []);
    var i := 0;
    while i < |sortedActions|
      invariant 0 <= i <= |sortedActions|
      invariant RunState(word.State(), paragraphs.items, errors) == Run(start, sortedActions[..i], ext)
      invariant word.changeTrackingMode == TrackAll
    {
      errors := ExecuteStep(word, paragraphs, sortedActions[i], ext, errors);
      assert sortedActions[..i + 1][..i] == sortedActions[..i];
      i := i + 1;
    }
    assert sortedActions[..i] == sortedActions;
    outcome := Aggregate(errors);
  }

  // ---------------------------------------------------------------------------
  // Properties

  /** The actions run in descending docPosition order, all of them and each once, and actions of
      equal docPosition (every key without one counts as 0) run in the order they were given. */
  lemma ExecutionOrder(actions: seq<Action>)
    ensures var sorted := Sort(actions, ByDocPosition);
      multiset(sorted) == multiset(actions)
      && forall i, j :: 0 <= i < j < |sorted| ==> DocPosition(sorted[i]) >= DocPosition(sorted[j])
    ensures forall e :: TiedWith(Sort(actions, ByDocPosition), ByDocPosition, e) == TiedWith(actions, ByDocPosition, e)
    ensures forall a, b :: ByDocPosition(a, b) == 0 <==> DocPosition(a) == DocPosition(b)
  {
    ByKeyDescendingFacts(DocPosition);
    SortPermutes(actions, ByDocPosition);
    SortOrders(actions, ByDocPosition);
    forall e ensures TiedWith(Sort(actions, ByDocPosition), ByDocPosition, e) == TiedWith(actions, ByDocPosition, e) {
      SortStable(actions, ByDocPosition, e);
    }
  }

  /** An action name without a `case` ("prepend" among them) runs no handler: the document and
      the collection stay as they are. */
  lemma UndispatchedIsNoOp(d: Doc, items: seq<nat>, a: Action, ext: External)
    requires a.action !in Dispatched || a.action == "none"
    ensures Dispatch(d, items, a, ext) == (Success(d), items)
  {
  }

  /** Every error line starts with the marker and the upper-cased action name. */
  lemma ErrorLineTagged(tag: string, msg: string)
    ensures StartsWith(ErrorLine(tag, msg), ErrorMark + ToUpperAscii(tag) + ": ")
  {
    var head := ErrorMark + ToUpperAscii(tag) + ": ";
    assert ErrorLine(tag, msg) == head + msg;
    assert (head + msg)[..|head|] == head;
  }

  /** A step adds at most one error line, marked and tagged; when it adds one, the body is as it
      was, and when it adds none the handler succeeded. */
  lemma StepErrors(st: RunState, a: Action, ext: External)
    ensures var st' := Step(st, a, ext);
      st'.errors == st.errors ||
      (|st'.errors| == |st.errors| + 1 && st'.errors[..|st.errors|] == st.errors
       && StartsWith(st'.errors[|st.errors|], ErrorMark + ToUpperAscii(a.action) + ": "))
    ensures var st' := Step(st, a, ext);
      st'.errors != st.errors ==> st'.doc.body == st.doc.body && st'.doc.nextId == st.doc.nextId
  {
    var st' := Step(st, a, ext);
    var e: string;
    if a.comment != "" && ResolveLocation(st.doc.body, a.loc, a.withinPara, Some(st.items)).Failure? {
      e := ResolveLocation(st.doc.body, a.loc, a.withinPara, Some(st.items)).error;
    } else {
      var st0 := if a.comment != "" then
        st.(doc := st.doc.(comments := st.doc.comments
               + [Comment(ResolveLocation(st.doc.body, a.loc, a.withinPara, Some(st.items)).value, a.comment)]))
        else st;
      assert st' == Handle(st0, a, ext);
      var r := Dispatch(st0.doc, st0.items, a, ext).0;
      if r.Success? {
        return;
      }
      e := r.error;
    }
    assert st'.errors == st.errors + [ErrorLine(a.action, e)];
    ErrorLineTagged(a.action, e);
    assert st'.errors[..|st.errors|] == st.errors;
  }

  /** Once resolved, an action's comment stays even when its handler then fails. */
  lemma CommentSurvivesFailure(st: RunState, a: Action, ext: External)
    requires a.comment != ""
    requires ResolveLocation(st.doc.body, a.loc, a.withinPara, Some(st.items)).Success?
    ensures var target := ResolveLocation(st.doc.body, a.loc, a.withinPara, Some(st.items)).value;
      var st' := Step(st, a, ext);
      Dispatch(st.doc.(comments := st.doc.comments + [Comment(target, a.comment)]), st.items, a, ext).0.Failure? ==>
        st'.doc == st.doc.(comments := st.doc.comments + [Comment(target, a.comment)])
  {
  }

  /** The errors of a run extend the errors before it by at most one line per action. */
  lemma {:induction false} RunErrors(st: RunState, actions: seq<Action>, ext: External)
    ensures var errs := Run(st, actions, ext).errors;
      |st.errors| <= |errs| <= |st.errors| + |actions| && errs[..|st.errors|] == st.errors
    decreases |actions|
  {
    if actions != [] {
      var init := actions[..|actions| - 1];
      RunErrors(st, init, ext);
      var mid := Run(st, init, ext);
      StepErrors(mid, actions[|actions| - 1], ext);
      var errs := Run(st, actions, ext).errors;
      assert errs[..|st.errors|] == mid.errors[..|st.errors|];
    }
  }

  /** The call fails exactly when some step collected an error, and then with all of them. */
  lemma AggregateIff(errors: seq<string>)
    ensures Aggregate(errors) == Pass <==> errors == []
    ensures errors != [] ==> Aggregate(errors) == Fail("Some actions failed:\n\n" + Join(errors, "\n\n"))
  {
  }

  /** A run in which no step collects an error succeeds; one in which the last step fails does not. */
  lemma {:induction false} RunSucceedsIff(st: RunState, actions: seq<Action>, ext: External)
    requires st.errors == []
    ensures Run(st, actions, ext).errors == [] <==>
      forall i :: 0 <= i < |actions| ==> Step(Run(st, actions[..i], ext), actions[i], ext).errors == []
    decreases |actions|
  {
    if actions != [] {
      var n := |actions| - 1;
      var init := actions[..n];
      RunSucceedsIff(st, init, ext);
      var mid := Run(st, init, ext);
      var last := Step(mid, actions[n], ext);
      assert Run(st, actions, ext) == last;
      StepErrors(mid, actions[n], ext);
      if last.errors == [] {
        assert mid.errors == [];
        forall i | 0 <= i < |actions| ensures Step(Run(st, actions[..i], ext), actions[i], ext).errors == [] {
          if i < n {
            assert actions[..i] == init[..i] && actions[i] == init[i];
          } else {
            assert actions[..i] == init;
          }
        }
      } else {
        assert actions[..n] == init;
        assert Step(Run(st, actions[..n], ext), actions[n], ext).errors != [];
      }
    }
  }
}
