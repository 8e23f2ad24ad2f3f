/** Turning a stored conversation back into chat bubbles (sessionUtils.ts). */
module SessionUtils {
  import opened Wrappers
  import opened Strings

  /** The tool call the agent makes to propose edits; its `actions` input is a JSON string. */
  datatype ToolUse = ToolUse(name: string, actionsJson: string)

  /** One content block of a stored message: a string `text`, a `toolUse`, both or neither
      (a `toolResult` block has neither). */
  datatype Block = Block(text: Option<string>, toolUse: Option<ToolUse>)

  /** `PersistedMessage.message`. */
  datatype PersistedMessage = PersistedMessage(role: string, content: seq<Block>)

  /** `RenderedMessage`, one constructor per `type`. */
  datatype RenderedMessage =
    | UserBubble(text: string)
    | AssistantBubble(text: string)
    | ProposedChanges(changeCount: nat)

  /** What `JSON.parse` yields, as far as `countActions` looks: a failure, an array of some
      length, or any other value. The parser itself is a parameter. */
  datatype Parsed = ParseFailure | JsonArray(length: nat) | JsonOther

  const UserInputOpen: string := "<user_input>"
  const UserInputClose: string := "</user_input>"
  const ProposalTool: string := "microsoft_actions_tool"

  // ---------------------------------------------------------------------------
  // extractUserInput

  /** `text.match(/<user_input>([\s\S]*?)<\/user_input>/)`, trimmed. The leftmost match starts at
      the first opening tag when a closing tag follows it, and no later opening tag can match
      when none does; the lazy group then ends at the first closing tag after the opening. */
  function ExtractUserInput(text: string): (r: string)
    ensures !Contains(text, UserInputOpen) ==> r == text
  {
    match IndexOf(text, UserInputOpen)
    case None => text
    case Some(p) =>
      match IndexOfFrom(text, UserInputClose, p + |UserInputOpen|)
      case None => text
      case Some(q) => Trim(text[p + |UserInputOpen|..q])
  }

  /** When the first character of `pat` does not recur in it, and `x` has no occurrence of `pat`
      from `from` on, the first occurrence of `pat` in `x + pat + rest` from `from` on is the
      one right after `x`. */
  lemma FirstOccurrenceAfter(x: string, pat: string, rest: string, from: nat)
    requires |pat| > 0 && from <= |x|
    requires forall k :: 0 < k < |pat| ==> pat[k] != pat[0]
    requires !Contains(x[from..], pat)
    ensures IndexOfFrom(x + pat + rest, pat, from) == Some(|x|)
  {
    var text := x + pat + rest;
    assert OccursAt(text, pat, |x|) by {
      assert text[|x|..|x| + |pat|] == pat;
    }
    forall j | from <= j < |x| ensures !OccursAt(text, pat, j) {
      if j + |pat| <= |x| {
        assert !OccursAt(x[from..], pat, j - from);
        assert x[from..][j - from..j - from + |pat|] == text[j..j + |pat|];
      } else {
        var k := |x| - j;
        assert text[j..j + |pat|][k] == text[|x|] == pat[0];
        assert text[j..j + |pat|][k] != pat[k];
      }
    }
  }

  /** The tags' first characters do not recur in them. */
  lemma TagsStartUniquely()
    ensures forall k :: 0 < k < |UserInputOpen| ==> UserInputOpen[k] != UserInputOpen[0]
    ensures forall k :: 0 < k < |UserInputClose| ==> UserInputClose[k] != UserInputClose[0]
  {
  }

  /** With the opening tag first at `p` and the first closing tag after it at `q`, the input
      is what lies between, trimmed. */
  lemma ExtractBetween(text: string, p: nat, q: nat)
    requires IndexOf(text, UserInputOpen) == Some(p)
    requires IndexOfFrom(text, UserInputClose, p + |UserInputOpen|) == Some(q)
    ensures p + |UserInputOpen| <= q <= |text|
    ensures ExtractUserInput(text) == Trim(text[p + |UserInputOpen|..q])
  {
    var c := IndexOfFrom(text, UserInputClose, p + |UserInputOpen|);
    assert OccursAt(text, UserInputClose, c.value);
  }

  /** The server wraps the user's prompt as `<user_input>prompt</user_input>` after the document
      and the highlighted text: the bubble shows the prompt, trimmed, provided nothing before it
      contains the opening tag and the prompt does not contain the closing tag. */
  lemma UserInputRecovered(before: string, prompt: string, after: string)
    requires !Contains(before, UserInputOpen) && !Contains(prompt, UserInputClose)
    ensures ExtractUserInput(before + UserInputOpen + prompt + UserInputClose + after) == Trim(prompt)
  {
    var text := before + UserInputOpen + prompt + UserInputClose + after;
    var x := before + UserInputOpen + prompt;
    var from := |before| + |UserInputOpen|;
    TagsStartUniquely();
    assert before[0..] == before;
    assert text == before + UserInputOpen + (prompt + UserInputClose + after);
    FirstOccurrenceAfter(before, UserInputOpen, prompt + UserInputClose + after, 0);
    assert x[from..] == prompt;
    assert text == x + UserInputClose + after;
    FirstOccurrenceAfter(x, UserInputClose, after, from);
    ExtractBetween(text, |before|, |x|);
    assert text[from..|x|] == prompt;
  }

  // ---------------------------------------------------------------------------
  // countActions and the per-message rules

  /** `countActions`: the length of the parsed array, and 0 for anything else or a failure. */
  function CountActions(actionsJson: string, parse: string -> Parsed): nat {
    match parse(actionsJson)
    case JsonArray(n) => n
    case _ => 0
  }

  /** `content.find(block => "text" in block && typeof block.text === "string")`. */
  function FirstText(content: seq<Block>): Option<string> {
    if content == [] then None
    else if content[0].text.Some? then content[0].text
    else FirstText(content[1..])
  }

  /** `content.find(block => "toolUse" in block && block.toolUse?.name === "microsoft_actions_tool")`. */
  function FirstProposal(content: seq<Block>): Option<ToolUse> {
    if content == [] then None
    else if content[0].toolUse.Some? && content[0].toolUse.value.name == ProposalTool then content[0].toolUse
    else FirstProposal(content[1..])
  }

  /** An assistant message's speech bubble: its first text, unless that is blank. */
  function TextBubble(content: seq<Block>): seq<RenderedMessage> {
    match FirstText(content)
    case Some(t) => if Trim(t) != "" then [AssistantBubble(t)] else []
    case None => []
  }

  /** An assistant message's "N proposed changes" entry, when it calls the edit tool. */
  function ProposalEntry(content: seq<Block>, parse: string -> Parsed): seq<RenderedMessage> {
    match FirstProposal(content)
    case Some(u) => [ProposedChanges(CountActions(u.actionsJson, parse))]
    case None => []
  }

  /** The entries one stored message contributes. */
  function Render(m: PersistedMessage, parse: string -> Parsed): seq<RenderedMessage> {
    if m.role == "user" then
      match FirstText(m.content)
      case None => []
      case Some(t) => [UserBubble(ExtractUserInput(t))]
    else if m.role == "assistant" then
      if m.content == [] then [] else TextBubble(m.content) + ProposalEntry(m.content, parse)
    else []
  }

  /** The lists `f` gives for the elements of `s`, concatenated in order. */
  function FlatMap<T, U>(f: T -> seq<U>, s: seq<T>): seq<U> {
    if s == [] then [] else FlatMap(f, s[..|s| - 1]) + f(s[|s| - 1])
  }

  lemma {:induction false} FlatMapAppend<T, U>(f: T -> seq<U>, a: seq<T>, b: seq<T>)
    ensures FlatMap(f, a + b) == FlatMap(f, a) + FlatMap(f, b)
    decreases |b|
  {
    if b == [] {
      assert a + b == a;
    } else {
      assert (a + b)[..|a + b| - 1] == a + b[..|b| - 1];
      assert (a + b)[|a + b| - 1] == b[|b| - 1];
      FlatMapAppend(f, a, b[..|b| - 1]);
    }
  }

  /** The whole list, message by message, in order. */
  function RenderAll(messages: seq<PersistedMessage>, parse: string -> Parsed): seq<RenderedMessage> {
    FlatMap((m: PersistedMessage) => Render(m, parse), messages)
  }

  /** `mapMessages`. */
  method MapMessages(messages: seq<PersistedMessage>, parse: string -> Parsed) returns (result: seq<RenderedMessage>)
    ensures result == RenderAll(messages, parse)
  {
    result := [];
    var i := 0;
    while i < |messages|
      invariant 0 <= i <= |messages|
      invariant result == RenderAll(messages[..i], parse)
    {
      assert messages[..i + 1][..i] == messages[..i];
      result := result + Render(messages[i], parse);
      i := i + 1;
    }
    assert messages[..|messages|] == messages;
  }

  // ---------------------------------------------------------------------------
  // What the mapping promises

  function ProposalEntries(rs: seq<RenderedMessage>): nat {
    if rs == [] then 0
    else ProposalEntries(rs[..|rs| - 1]) + if rs[|rs| - 1].ProposedChanges? then 1 else 0
  }

  lemma {:induction false} ProposalEntriesAppend(a: seq<RenderedMessage>, b: seq<RenderedMessage>)
    ensures ProposalEntries(a + b) == ProposalEntries(a) + ProposalEntries(b)
    decreases |b|
  {
    if b == [] {
      assert a + b == a;
    } else {
      assert (a + b)[..|a + b| - 1] == a + b[..|b| - 1];
      ProposalEntriesAppend(a, b[..|b| - 1]);
    }
  }

  /** A user message yields one bubble, holding its extracted input, exactly when it has a
      text block. */
  lemma UserMessageRule(m: PersistedMessage, parse: string -> Parsed)
    requires m.role == "user"
    ensures var r := Render(m, parse);
      (r == [] <==> FirstText(m.content).None?)
      && (r != [] ==> r == [UserBubble(ExtractUserInput(FirstText(m.content).value))])
  {
  }

  /** An assistant message yields its first text when that is not blank, then one proposal
      entry, counting the parsed actions, exactly when it calls the edit tool. */
  lemma AssistantMessageRule(m: PersistedMessage, parse: string -> Parsed)
    requires m.role == "assistant"
    ensures var r := Render(m, parse);
      |r| <= 2
      && (r != [] && r[0].AssistantBubble? <==> FirstText(m.content).Some? && !Blank(FirstText(m.content).value))
      && (r != [] && r[0].AssistantBubble? ==> r[0].text == FirstText(m.content).value)
      && (ProposalEntries(r) == 1 <==> FirstProposal(m.content).Some?)
      && (r != [] && r[|r| - 1].ProposedChanges? ==>
            r[|r| - 1].changeCount == CountActions(FirstProposal(m.content).value.actionsJson, parse))
  {
    var r := Render(m, parse);
    if m.content == [] {
      assert FirstText(m.content).None? && FirstProposal(m.content).None?;
    } else {
      var text := FirstText(m.content);
      var bubble := TextBubble(m.content);
      var proposal := ProposalEntry(m.content, parse);
      assert r == bubble + proposal;
      if text.Some? {
        TrimEmptyIffBlank(text.value);
      }
      ProposalEntriesAppend(bubble, proposal);
      assert ProposalEntries(bubble) == 0 by {
        if bubble != [] {
          assert ProposalEntries(bubble) == ProposalEntries([]) + 0;
        }
      }
      assert ProposalEntries(proposal) == if FirstProposal(m.content).Some? then 1 else 0 by {
        if proposal != [] {
          assert ProposalEntries(proposal) == ProposalEntries([]) + 1;
        }
      }
    }
  }

  /** Messages in any other role yield nothing, and no message yields more than two entries. */
  lemma OtherRolesSkipped(m: PersistedMessage, parse: string -> Parsed)
    ensures m.role != "user" && m.role != "assistant" ==> Render(m, parse) == []
    ensures |Render(m, parse)| <= 2
  {
  }

  /** The list of several stored messages is the lists of each, concatenated in order. */
  lemma RenderAllAppend(a: seq<PersistedMessage>, b: seq<PersistedMessage>, parse: string -> Parsed)
    ensures RenderAll(a + b, parse) == RenderAll(a, parse) + RenderAll(b, parse)
  {
    FlatMapAppend((m: PersistedMessage) => Render(m, parse), a, b);
  }

  /** Each stored message gives at most two entries. */
  lemma {:induction false} RenderAllBound(messages: seq<PersistedMessage>, parse: string -> Parsed)
    ensures |RenderAll(messages, parse)| <= 2 * |messages|
  {
    if messages != [] {
      RenderAllBound(messages[..|messages| - 1], parse);
      OtherRolesSkipped(messages[|messages| - 1], parse);
    }
  }

  /** The assistant messages that call the edit tool. */
  function ToolCalls(messages: seq<PersistedMessage>): nat {
    if messages == [] then 0
    else
      var m := messages[|messages| - 1];
      ToolCalls(messages[..|messages| - 1]) + if m.role == "assistant" && FirstProposal(m.content).Some? then 1 else 0
  }

  /** One stored message gives one proposal entry when it is an assistant message calling the
      edit tool, and none otherwise. */
  lemma MessageProposals(m: PersistedMessage, parse: string -> Parsed)
    ensures ProposalEntries(Render(m, parse))
      == if m.role == "assistant" && FirstProposal(m.content).Some? then 1 else 0
  {
    var r := Render(m, parse);
    if m.role == "assistant" {
      AssistantMessageRule(m, parse);
      assert r == [] ==> FirstProposal(m.content).None? && ProposalEntries(r) == 0;
    } else if m.role == "user" && r != [] {
      UserMessageRule(m, parse);
      assert ProposalEntries(r) == ProposalEntries([]) + 0;
    } else {
      OtherRolesSkipped(m, parse);
    }
  }

  /** The list shows one "proposed changes" entry per stored tool call, no more and no fewer. */
  lemma {:induction false} OneEntryPerToolCall(messages: seq<PersistedMessage>, parse: string -> Parsed)
    ensures ProposalEntries(RenderAll(messages, parse)) == ToolCalls(messages)
  {
    if messages != [] {
      var init := messages[..|messages| - 1];
      var m := messages[|messages| - 1];
      OneEntryPerToolCall(init, parse);
      ProposalEntriesAppend(RenderAll(init, parse), Render(m, parse));
      MessageProposals(m, parse);
    }
  }
}
