/** The chat panel's state updates (ChatInterface.tsx): streamed response events, the record of
    a decided batch, and the start of a send, which closes an undecided batch and fingerprints
    the document it sends. */
module Chat {
  import opened Wrappers
  import opened Document
  import opened Host
  import opened Actions
  import opened Indexer
  import opened Fingerprint
  import Review
  import Engine

  /** What `failedIndices || []` stores. The parameter is typed as a list, but the review panel's
      `onApply(applied, rejected, true)` reaches it through ChatMessageList.tsx unchanged, so the
      value `true` arrives in that position. */
  datatype FailedSlot = FailedList(indices: seq<nat>) | FlagTrue

  /** The record of a batch: decided through the review panel, or rejected by a new message. */
  datatype ActionHistory =
    | Decided(actions: seq<Action>, appliedIndices: seq<nat>, rejectedIndices: seq<nat>,
              failedIndices: FailedSlot, errorMessages: map<nat, string>, hashMismatch: bool)
    | AutoRejected(actions: seq<Action>)

  /** A `Message`: its role, the text of its one content block, a tool name, a batch record. */
  datatype Message = Message(role: string, content: Option<string>, toolName: Option<string>,
                             history: Option<ActionHistory>)

  /** The component state these updates touch. */
  datatype ChatState = ChatState(messages: seq<Message>, loading: bool, pendingActions: seq<Action>,
                                 documentHashWhenSent: Option<string>)

  /** A parsed stream event, by its `type`. `MicrosoftActions(None)` is an event without `actions`. */
  datatype ChatEvent =
    | Content(data: string)
    | ToolUse(toolName: string)
    | MicrosoftActions(actions: Option<seq<Action>>)
    | EndTurn
    | Other(eventType: string)

  function AssistantMessage(text: string): Message {
    Message("assistant", Some(text), None, None)
  }

  // ---------------------------------------------------------------------------
  // handleChatResponse

  /** The `content` updater: extend the last message when it is an assistant message with
      content, otherwise start a new assistant message. */
  function AppendContent(prev: seq<Message>, data: string): (next: seq<Message>)
    ensures |next| == |prev| || next == prev + [AssistantMessage(data)]
    ensures |next| > 0 && next[|next| - 1].role == "assistant" && next[|next| - 1].content.Some?
  {
    if |prev| > 0 && prev[|prev| - 1].role == "assistant" && prev[|prev| - 1].content.Some? then
      var last := prev[|prev| - 1];
      prev[..|prev| - 1] + [last.(content := Some(last.content.value + data))]
    else prev + [AssistantMessage(data)]
  }

  /** `handleChatResponse`. */
  function HandleChatResponse(st: ChatState, event: ChatEvent): ChatState {
    match event
    case Content(data) => st.(messages := AppendContent(st.messages, data))
    case ToolUse(name) => st.(messages := st.messages + [Message("tool_indicator", None, Some(name), None)])
    case MicrosoftActions(actions) =>
      st.(pendingActions := match actions case Some(a) => a case None => [])
    case EndTurn => st.(loading := false)
    case Other(_) => st
  }

  /** Streamed text is extended in place: only the last message changes, and it changes by `data`. */
  lemma ContentExtendsLast(prev: seq<Message>, data: string)
    requires |prev| > 0 && prev[|prev| - 1].role == "assistant" && prev[|prev| - 1].content.Some?
    ensures var next := AppendContent(prev, data);
      |next| == |prev| && next[..|prev| - 1] == prev[..|prev| - 1]
      && next[|prev| - 1] == prev[|prev| - 1].(content := Some(prev[|prev| - 1].content.value + data))
  {
  }

  /** Two chunks stream to the list one chunk of both would: a reply's text, however the
      stream splits it, ends up as one assistant message. */
  lemma ContentChunksConcatenate(prev: seq<Message>, d1: string, d2: string)
    ensures AppendContent(AppendContent(prev, d1), d2) == AppendContent(prev, d1 + d2)
  {
    var mid := AppendContent(prev, d1);
    var n := |mid|;
    if |prev| > 0 && prev[|prev| - 1].role == "assistant" && prev[|prev| - 1].content.Some? {
      var last := prev[|prev| - 1];
      assert mid[..n - 1] == prev[..|prev| - 1];
      assert last.content.value + d1 + d2 == last.content.value + (d1 + d2);
    } else {
      assert mid[..n - 1] == prev;
    }
  }

  /** Every other event leaves the list's existing messages alone: a tool event adds one
      indicator, the batch and end-of-turn events add nothing. */
  lemma OtherEventsKeepMessages(st: ChatState, event: ChatEvent)
    requires !event.Content?
    ensures var st' := HandleChatResponse(st, event);
      (event.ToolUse? ==> st'.messages == st.messages + [Message("tool_indicator", None, Some(event.toolName), None)])
      && (!event.ToolUse? ==> st'.messages == st.messages)
      && (event.MicrosoftActions? ==> st'.pendingActions == if event.actions.Some? then event.actions.value else [])
      && (!event.MicrosoftActions? ==> st'.pendingActions == st.pendingActions)
      && (event.EndTurn? ==> !st'.loading)
  {
  }

  // ---------------------------------------------------------------------------
  // handleApplyModifications

  /** `handleApplyModifications(appliedIndices, rejectedIndices, failedIndices?, errorMessages?, hashMismatch = false)` */
  function HandleApplyModifications(st: ChatState, appliedIndices: seq<nat>, rejectedIndices: seq<nat>,
                                    failedIndices: Option<FailedSlot>, errorMessages: Option<map<nat, string>>,
                                    hashMismatch: bool): ChatState
  {
    var entry := Decided(st.pendingActions, appliedIndices, rejectedIndices,
                         match failedIndices case Some(f) => f case None => FailedList([]),
                         match errorMessages case Some(m) => m case None => map[],
                         hashMismatch);
    st.(messages := st.messages + [Message("action_history", None, None, Some(entry))], pendingActions := [])
  }

  /** A decision adds exactly one record, of the pending batch, and clears the batch. */
  lemma ApplyRecordsOnce(st: ChatState, applied: seq<nat>, rejected: seq<nat>, mismatch: bool)
    ensures var st' := HandleApplyModifications(st, applied, rejected, None, None, mismatch);
      |st'.messages| == |st.messages| + 1 && st'.messages[..|st.messages|] == st.messages
      && st'.pendingActions == []
      && st'.messages[|st.messages|].history
        == Some(Decided(st.pendingActions, applied, rejected, FailedList([]), map[], mismatch))
  {
    assert (st.messages + [HandleApplyModifications(st, applied, rejected, None, None, mismatch).messages[|st.messages|]])[..|st.messages|] == st.messages;
  }

  /** The call the review panel makes, as ChatMessageList.tsx wires it: the panel's third
      argument, its mismatch flag, lands in the `failedIndices` position. */
  function OnApplyAsWired(st: ChatState, applied: seq<nat>, rejected: seq<nat>, mismatch: bool): ChatState {
    if mismatch then HandleApplyModifications(st, applied, rejected, Some(FlagTrue), None, false)
    else HandleApplyModifications(st, applied, rejected, None, None, false)
  }

  /** The call the panel evidently means: the flag in the `hashMismatch` position. */
  function OnApplyIntended(st: ChatState, applied: seq<nat>, rejected: seq<nat>, mismatch: bool): ChatState {
    HandleApplyModifications(st, applied, rejected, None, None, mismatch)
  }

  /** What the review panel passes to `onApply` when it is done. */
  function ReportArgs(r: Review.ApplyResult): (seq<nat>, seq<nat>, bool) {
    match r
    case HashMismatch(rejected) => ([], rejected, true)
    case Finished(_, _, applied, rejected) => (applied, rejected, false)
  }

  /** As wired, a record made after a fingerprint mismatch says there was none and holds `true`
      as its failed indices. */
  lemma MismatchRecordedAsWired(st: ChatState, rejected: seq<nat>)
    ensures var last := OnApplyAsWired(st, [], rejected, true).messages[|st.messages|];
      last.history.Some? && last.history.value.Decided?
      && !last.history.value.hashMismatch && last.history.value.failedIndices == FlagTrue
  {
  }

  /** With the flag in its own position, the record says whether the panel found the document
      changed, after any run of the panel. */
  lemma MismatchRecordedAsIntended(st: ChatState, d: Doc, modifications: seq<Action>,
                                   editedTexts: map<nat, string>, selected: seq<nat>, hash: string,
                                   ext: Engine.External)
    ensures var r := Review.HandleApplyEffect(d, modifications, editedTexts, selected, hash, ext).1;
      var (applied, rejected, mismatch) := ReportArgs(r);
      var last := OnApplyIntended(st, applied, rejected, mismatch).messages[|st.messages|];
      last.history.Some? && last.history.value.Decided?
      && (last.history.value.hashMismatch <==> r.HashMismatch?)
      && last.history.value.failedIndices == FailedList([])
  {
  }

  // ---------------------------------------------------------------------------
  // handleSendMessage, up to the request

  /** The auto-reject step: an undecided batch is recorded as rejected and cleared. */
  function AutoReject(st: ChatState): ChatState {
    if |st.pendingActions| > 0 then
      st.(messages := st.messages + [Message("action_history", None, None, Some(AutoRejected(st.pendingActions)))],
          pendingActions := [])
    else st
  }

  /** The state and the document text once `handleSendMessage` has sent its request: the
      rejection, the fingerprint of what is sent, the user's message, and loading on. */
  function SendMessage(st: ChatState, inputValue: string, fs: seq<FlatPara>): (ChatState, string) {
    var st1 := AutoReject(st);
    var documentContent := Snapshot(fs);
    var st2 := st1.(documentHashWhenSent := Some(Hash(documentContent)));
    (st2.(messages := st2.messages + [Message("user", Some(inputValue), None, None)], loading := true), documentContent)
  }

  /** Sending with a batch pending records it as rejected, then the user's message, and
      leaves nothing pending; without one it adds only the user's message. */
  lemma SendClosesBatch(st: ChatState, inputValue: string, fs: seq<FlatPara>)
    ensures var (st', _) := SendMessage(st, inputValue, fs);
      var user := Message("user", Some(inputValue), None, None);
      st'.loading && st'.pendingActions == []
      && (|st.pendingActions| > 0 ==>
            st'.messages == st.messages + [Message("action_history", None, None, Some(AutoRejected(st.pendingActions))), user])
      && (|st.pendingActions| == 0 ==> st'.messages == st.messages + [user])
  {
  }

  /** The fingerprint is of exactly the text sent, and an empty document is sent as "" and
      fingerprinted "0". */
  lemma SentHashIsOfSentText(st: ChatState, inputValue: string, fs: seq<FlatPara>)
    ensures var (st', sent) := SendMessage(st, inputValue, fs);
      st'.documentHashWhenSent == Some(Hash(sent))
      && (IsDocumentEmpty(BodyText(fs)) ==> sent == "" && st'.documentHashWhenSent == Some("0"))
  {
    HashOfEmpty();
  }

  /** The send and the apply step fingerprint the same way, so a batch applied to the document
      it was proposed for is never refused as stale. */
  lemma UnchangedDocumentIsNotStale(st: ChatState, inputValue: string, d: Doc, modifications: seq<Action>,
                                    editedTexts: map<nat, string>, selected: seq<nat>, ext: Engine.External)
    ensures var (st', _) := SendMessage(st, inputValue, Flat(d.body));
      Review.HandleApplyEffect(d, modifications, editedTexts, selected, st'.documentHashWhenSent.value, ext).1.Finished?
  {
  }
}
