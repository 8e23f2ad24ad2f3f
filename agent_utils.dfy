/** The agent's text filters (backend/agent/utils.py): placeholders for characters a language
    model tends to normalise, and the removal of a `<thinking>` block from a response. */
module AgentUtils {
  import opened Wrappers
  import opened Strings

  /** `CHAR_PLACEHOLDERS`, in its insertion order, which is the order Python iterates it in. */
  const Placeholders: seq<(char, string)> := [
    ('\r', "[u+000D]"),
    ('\U{201C}', "[u+201C]"),
    ('\U{201D}', "[u+201D]"),
    ('\U{2018}', "[u+2018]"),
    ('\U{2019}', "[u+2019]"),
    ('\U{2013}', "[u+2013]"),
    ('\U{2014}', "[u+2014]"),
    ('\U{2026}', "[u+2026]")
  ]

  function Char(k: nat): char
    requires k < |Placeholders|
  {
    Placeholders[k].0
  }

  function Ph(k: nat): string
    requires k < |Placeholders|
  {
    Placeholders[k].1
  }

  /** The first of the first `n` entries whose character is `c`. */
  function Slot(c: char, n: nat): (r: Option<nat>)
    requires n <= |Placeholders|
    ensures r.Some? ==> r.value < n && Char(r.value) == c
    ensures r.None? ==> forall k :: 0 <= k < n ==> Char(k) != c
  {
    if n == 0 then None
    else match Slot(c, n - 1)
      case Some(k) => Some(k)
      case None => if Char(n - 1) == c then Some(n - 1) else None
  }

  /** One of the eight characters the table maps. */
  predicate Mapped(c: char) {
    Slot(c, |Placeholders|).Some?
  }

  /** The characters placeholders are spelled with. */
  predicate Spelling(c: char) {
    c == '[' || c == ']' || c == 'u' || c == '+' || ('0' <= c <= '9') || ('A' <= c <= 'F')
  }

  /** The table's shape: distinct characters, distinct placeholders of eight characters that
      open with `[` and have no other `[`, spelled without any mapped character. */
  lemma TableFacts()
    ensures forall i, j :: 0 <= i < j < |Placeholders| ==> Char(i) != Char(j)
    ensures forall i, j :: 0 <= i < j < |Placeholders| ==> Ph(i) != Ph(j)
    ensures forall k :: 0 <= k < |Placeholders| ==> |Ph(k)| == 8 && Ph(k)[0] == '['
    ensures forall k, i :: 0 <= k < |Placeholders| && 0 < i < |Ph(k)| ==> Ph(k)[i] != '['
    ensures forall k, i :: 0 <= k < |Placeholders| && 0 <= i < |Ph(k)| ==> Spelling(Ph(k)[i])
    ensures forall k :: 0 <= k < |Placeholders| ==> !Spelling(Char(k))
  {
  }

  /** No character a placeholder is spelled with is mapped. */
  lemma SpellingNotMapped(c: char)
    ensures Spelling(c) ==> !Mapped(c)
  {
    TableFacts();
  }

  // ---------------------------------------------------------------------------
  // convert_to_placeholders

  /** The result of the first `n` replacement passes. */
  function ToSteps(text: string, n: nat): string
    requires n <= |Placeholders|
  {
    if n == 0 then text else ReplaceAll(ToSteps(text, n - 1), [Char(n - 1)], Ph(n - 1))
  }

  /** A character once the first `n` entries have been applied. */
  function EncodeChar(c: char, n: nat): string
    requires n <= |Placeholders|
  {
    match Slot(c, n)
    case Some(k) => Ph(k)
    case None => [c]
  }

  /** The text with each character encoded on its own: the reference for the passes. */
  function Encode(s: string, n: nat): string
    requires n <= |Placeholders|
  {
    if s == [] then [] else EncodeChar(s[0], n) + Encode(s[1..], n)
  }

  /** Replacing a single character distributes over concatenation. */
  lemma {:induction false} ReplaceCharAppend(a: string, b: string, c: char, rep: string)
    ensures ReplaceAll(a + b, [c], rep) == ReplaceAll(a, [c], rep) + ReplaceAll(b, [c], rep)
    decreases |a|
  {
    if a == [] {
      assert a + b == b;
    } else {
      assert (a + b)[1..] == a[1..] + b;
      assert (a + b)[..1] == a[..1];
      ReplaceCharAppend(a[1..], b, c, rep);
    }
  }

  /** Pass `n` turns each character's encoding under the first `n` entries into its encoding
      under the first `n + 1`. */
  lemma EncodeCharStep(x: char, n: nat)
    requires n < |Placeholders|
    ensures ReplaceAll(EncodeChar(x, n), [Char(n)], Ph(n)) == EncodeChar(x, n + 1)
  {
    TableFacts();
    match Slot(x, n)
    case Some(k) =>
      forall i | 0 <= i <= |Ph(k)| ensures !OccursAt(Ph(k), [Char(n)], i) {
        if i < |Ph(k)| {
          assert Spelling(Ph(k)[i]);
          assert Ph(k)[i..i + 1][0] == Ph(k)[i];
        }
      }
      ReplaceAllAbsent(Ph(k), [Char(n)], Ph(n));
    case None =>
      if x == Char(n) {
        assert ReplaceAll([x], [Char(n)], Ph(n)) == Ph(n) + ReplaceAll([], [Char(n)], Ph(n));
      } else {
        assert ReplaceAll([x], [Char(n)], Ph(n)) == [x] + ReplaceAll([], [Char(n)], Ph(n));
      }
  }

  lemma {:induction false} EncodeStep(s: string, n: nat)
    requires n < |Placeholders|
    ensures ReplaceAll(Encode(s, n), [Char(n)], Ph(n)) == Encode(s, n + 1)
    decreases |s|
  {
    if s != [] {
      ReplaceCharAppend(EncodeChar(s[0], n), Encode(s[1..], n), Char(n), Ph(n));
      EncodeCharStep(s[0], n);
      EncodeStep(s[1..], n);
    }
  }

  lemma {:induction false} EncodeNone(s: string)
    ensures Encode(s, 0) == s
    decreases |s|
  {
    if s != [] {
      EncodeNone(s[1..]);
      assert [s[0]] + s[1..] == s;
    }
  }

  /** The passes compute the per-character encoding. */
  lemma {:induction false} ToStepsEncode(s: string, n: nat)
    requires n <= |Placeholders|
    ensures ToSteps(s, n) == Encode(s, n)
  {
    if n == 0 {
      EncodeNone(s);
    } else {
      ToStepsEncode(s, n - 1);
      EncodeStep(s, n - 1);
    }
  }

  /** No character of `t` is one of the mapped ones. */
  predicate NoneMapped(t: string) {
    forall i :: 0 <= i < |t| ==> !Mapped(t[i])
  }

  /** The encoded text contains none of the mapped characters. */
  lemma {:induction false} EncodedHasNoMapped(s: string)
    ensures NoneMapped(Encode(s, |Placeholders|))
    decreases |s|
  {
    if s != [] {
      var head := EncodeChar(s[0], |Placeholders|);
      var tail := Encode(s[1..], |Placeholders|);
      EncodedHasNoMapped(s[1..]);
      forall i | 0 <= i < |head| ensures !Mapped(head[i]) {
        TableFacts();
        SpellingNotMapped(head[i]);
      }
      NoneMappedAppend(head, tail);
      assert Encode(s, |Placeholders|) == head + tail;
    }
  }

  lemma NoneMappedAppend(a: string, b: string)
    requires NoneMapped(a) && NoneMapped(b)
    ensures NoneMapped(a + b)
  {
    forall i | 0 <= i < |a + b| ensures !Mapped((a + b)[i]) {
      if i >= |a| {
        assert (a + b)[i] == b[i - |a|];
      }
    }
  }

  /** `convert_to_placeholders`. */
  method ConvertToPlaceholders(text: string) returns (r: string)
    ensures r == Encode(text, |Placeholders|)
    ensures NoneMapped(r)
  {
    EncodedHasNoMapped(text);
    if text == "" {
      return "";
    }
    r := text;
    for i := 0 to |Placeholders|
      invariant r == ToSteps(text, i)
    {
      r := ReplaceAll(r, [Placeholders[i].0], Placeholders[i].1);
    }
    ToStepsEncode(text, |Placeholders|);
  }

  // ---------------------------------------------------------------------------
  // convert_from_placeholders

  /** The result of the first `n` restoring passes. */
  function FromSteps(text: string, n: nat): string
    requires n <= |Placeholders|
  {
    if n == 0 then text else ReplaceAll(FromSteps(text, n - 1), Ph(n - 1), [Char(n - 1)])
  }

  /** A character of the original once the first `n` restoring passes have run over its encoding. */
  function Partial(c: char, n: nat): string
    requires n <= |Placeholders|
  {
    match Slot(c, |Placeholders|)
    case Some(k) => if k < n then [c] else Ph(k)
    case None => [c]
  }

  function PartialText(s: string, n: nat): string
    requires n <= |Placeholders|
  {
    if s == [] then [] else Partial(s[0], n) + PartialText(s[1..], n)
  }

  /** No placeholder occurs in `s`. */
  predicate NoPlaceholder(s: string) {
    forall k :: 0 <= k < |Placeholders| ==> !Contains(s, Ph(k))
  }

  lemma NoPlaceholderTail(s: string)
    requires s != [] && NoPlaceholder(s)
    ensures NoPlaceholder(s[1..])
    ensures forall k :: 0 <= k < |Placeholders| ==> !StartsWith(s, Ph(k))
  {
    forall k, i | 0 <= k < |Placeholders| && 0 <= i <= |s[1..]| ensures !OccursAt(s[1..], Ph(k), i) {
      assert !OccursAt(s, Ph(k), i + 1);
      if i + |Ph(k)| <= |s[1..]| {
        assert s[1..][i..i + |Ph(k)|] == s[i + 1..i + 1 + |Ph(k)|];
      }
    }
    forall k | 0 <= k < |Placeholders| ensures !StartsWith(s, Ph(k)) {
      assert !OccursAt(s, Ph(k), 0);
    }
  }

  /** Dropping a prefix that cannot start an occurrence of `pat` commutes with replacing `pat`. */
  lemma {:induction false} ReplaceSkipsPrefix(a: string, rest: string, pat: string, rep: string)
    requires |pat| > 0
    requires forall i :: 0 <= i < |a| ==> !StartsWith((a + rest)[i..], pat)
    ensures ReplaceAll(a + rest, pat, rep) == a + ReplaceAll(rest, pat, rep)
    decreases |a|
  {
    if a != [] {
      var t := a + rest;
      assert t[0..] == t;
      assert !StartsWith(t, pat);
      if |t| < |pat| {
        assert ReplaceAll(rest, pat, rep) == rest;
      } else {
        assert t[1..] == a[1..] + rest;
        forall i | 0 <= i < |a[1..]| ensures !StartsWith((a[1..] + rest)[i..], pat) {
          assert !StartsWith(t[i + 1..], pat);
          assert t[i + 1..] == (a[1..] + rest)[i..];
        }
        ReplaceSkipsPrefix(a[1..], rest, pat, rep);
        assert ReplaceAll(t, pat, rep) == [t[0]] + ReplaceAll(t[1..], pat, rep);
        assert [a[0]] + (a[1..] + ReplaceAll(rest, pat, rep)) == a + ReplaceAll(rest, pat, rep);
      }
    } else {
      assert a + rest == rest;
    }
  }

  /** A prefix spelled without `[` and mapped characters is a prefix of the partially restored
      text only if it is a prefix of the original. */
  lemma {:induction false} LiftPrefix(t: string, q: string, n: nat)
    requires n <= |Placeholders|
    requires forall i :: 0 <= i < |q| ==> q[i] != '[' && !Mapped(q[i])
    ensures StartsWith(PartialText(t, n), q) ==> StartsWith(t, q)
    decreases |q|
  {
    if q != [] && t != [] && StartsWith(PartialText(t, n), q) {
      TableFacts();
      var head := Partial(t[0], n);
      var p := PartialText(t, n);
      assert p == head + PartialText(t[1..], n);
      assert head[0] == q[0];
      assert head == [t[0]];
      assert p[1..] == PartialText(t[1..], n);
      assert StartsWith(PartialText(t[1..], n), q[1..]);
      LiftPrefix(t[1..], q[1..], n);
    }
  }

  /** The restored head of the text cannot start the placeholder of entry `k`. */
  lemma HeadNotPlaceholder(x: char, rest: string, n: nat, k: nat)
    requires n <= |Placeholders| && k < |Placeholders|
    requires Slot(x, |Placeholders|) != Some(k)
    requires x == '[' ==> !StartsWith(rest, Ph(k)[1..])
    ensures forall i :: 0 <= i < |Partial(x, n)| ==> !StartsWith((Partial(x, n) + PartialText(rest, n))[i..], Ph(k))
  {
    TableFacts();
    var head := Partial(x, n);
    var t := head + PartialText(rest, n);
    forall i | 0 <= i < |head| ensures !StartsWith(t[i..], Ph(k)) {
      if head == [x] {
        if x == '[' {
          var q := Ph(k)[1..];
          forall j | 0 <= j < |q| ensures q[j] != '[' && !Mapped(q[j]) {
            assert q[j] == Ph(k)[j + 1];
            SpellingNotMapped(q[j]);
          }
          LiftPrefix(rest, q, n);
          if |Ph(k)| <= |t| {
            assert t[1..] == PartialText(rest, n);
            assert t[..|Ph(k)|][1..] == t[1..][..|q|];
          }
        } else if |Ph(k)| <= |t[i..]| {
          assert t[i..][..|Ph(k)|][0] == x;
        }
      } else {
        var j :| j == Slot(x, |Placeholders|).value;
        assert head == Ph(j) && j != k;
        if i == 0 {
          if |Ph(k)| <= |t| {
            assert t[..|Ph(k)|] == Ph(j);
          }
        } else if |Ph(k)| <= |t[i..]| {
          assert t[i..][..|Ph(k)|][0] == Ph(j)[i];
        }
      }
    }
  }

  lemma ConsStartsWith(x: char, rest: string, p: string)
    requires |p| > 0
    ensures x == p[0] && StartsWith(rest, p[1..]) ==> StartsWith([x] + rest, p)
  {
    if x == p[0] && StartsWith(rest, p[1..]) {
      assert ([x] + rest)[..|p|] == [x] + rest[..|p| - 1];
    }
  }

  /** Pass `n` restores exactly the characters of entry `n`, when the original has no placeholder. */
  lemma {:induction false} RestoreStep(s: string, n: nat)
    requires n < |Placeholders| && NoPlaceholder(s)
    ensures ReplaceAll(PartialText(s, n), Ph(n), [Char(n)]) == PartialText(s, n + 1)
    decreases |s|
  {
    TableFacts();
    if s != [] {
      var x, rest := s[0], s[1..];
      NoPlaceholderTail(s);
      RestoreStep(rest, n);
      var tail := PartialText(rest, n);
      if Slot(x, |Placeholders|) == Some(n) {
        assert Partial(x, n) == Ph(n) && Partial(x, n + 1) == [Char(n)];
        var t := Ph(n) + tail;
        assert t[..|Ph(n)|] == Ph(n) && t[|Ph(n)|..] == tail;
      } else {
        assert !StartsWith(s, Ph(n));
        assert s == [x] + rest;
        ConsStartsWith(x, rest, Ph(n));
        HeadNotPlaceholder(x, rest, n, n);
        ReplaceSkipsPrefix(Partial(x, n), tail, Ph(n), [Char(n)]);
        assert Partial(x, n) == Partial(x, n + 1);
      }
    }
  }

  lemma {:induction false} PartialStart(s: string)
    ensures PartialText(s, 0) == Encode(s, |Placeholders|)
    decreases |s|
  {
    if s != [] {
      PartialStart(s[1..]);
    }
  }

  lemma {:induction false} PartialEnd(s: string)
    ensures PartialText(s, |Placeholders|) == s
    decreases |s|
  {
    if s != [] {
      PartialEnd(s[1..]);
      assert [s[0]] + s[1..] == s;
    }
  }

  lemma {:induction false} FromStepsRestore(s: string, n: nat)
    requires n <= |Placeholders| && NoPlaceholder(s)
    ensures FromSteps(Encode(s, |Placeholders|), n) == PartialText(s, n)
  {
    if n == 0 {
      PartialStart(s);
    } else {
      FromStepsRestore(s, n - 1);
      RestoreStep(s, n - 1);
    }
  }

  /** Restoring undoes the encoding of any text that had no placeholder in it. */
  lemma RoundTrip(s: string)
    requires NoPlaceholder(s)
    ensures FromSteps(Encode(s, |Placeholders|), |Placeholders|) == s
  {
    FromStepsRestore(s, |Placeholders|);
    PartialEnd(s);
  }

  /** Without that condition the round trip fails: a literal placeholder comes back as its character. */
  lemma LiteralPlaceholderNotPreserved()
    ensures Encode("[u+000D]", |Placeholders|) == "[u+000D]"
    ensures FromSteps("[u+000D]", |Placeholders|) == "\r"
  {
    LiteralPlaceholderEncodes();
    LiteralPlaceholderRestores();
  }

  lemma LiteralPlaceholderEncodes()
    ensures Encode("[u+000D]", |Placeholders|) == "[u+000D]"
  {
    var s := "[u+000D]";
    TableFacts();
    forall i | 0 <= i < |s| ensures !Mapped(s[i]) {
      SpellingNotMapped(s[i]);
    }
    NoMappedEncodesToItself(s);
  }

  lemma LiteralPlaceholderRestores()
    ensures FromSteps("[u+000D]", |Placeholders|) == "\r"
  {
    var s := "[u+000D]";
    TableFacts();
    var n := |Placeholders|;
    assert FromSteps(s, 1) == "\r" by {
      assert ReplaceAll(s, Ph(0), [Char(0)]) == [Char(0)] + ReplaceAll([], Ph(0), [Char(0)]);
    }
    forall k | 1 <= k < n ensures ReplaceAll("\r", Ph(k), [Char(k)]) == "\r" {
    }
    assert FromSteps(s, 2) == "\r";
    assert FromSteps(s, 3) == "\r";
    assert FromSteps(s, 4) == "\r";
    assert FromSteps(s, 5) == "\r";
    assert FromSteps(s, 6) == "\r";
    assert FromSteps(s, 7) == "\r";
  }

  lemma {:induction false} NoMappedEncodesToItself(s: string)
    requires forall i :: 0 <= i < |s| ==> !Mapped(s[i])
    ensures Encode(s, |Placeholders|) == s
    decreases |s|
  {
    if s != [] {
      assert !Mapped(s[0]);
      NoMappedEncodesToItself(s[1..]);
      assert [s[0]] + s[1..] == s;
    }
  }

  /** `convert_from_placeholders`. */
  method ConvertFromPlaceholders(text: string) returns (r: string)
    ensures r == FromSteps(text, |Placeholders|)
    ensures forall s :: NoPlaceholder(s) && text == Encode(s, |Placeholders|) ==> r == s
  {
    r := text;
    for i := 0 to |Placeholders|
      invariant r == FromSteps(text, i)
    {
      r := ReplaceAll(r, Placeholders[i].1, [Placeholders[i].0]);
    }
    forall s | NoPlaceholder(s) && text == Encode(s, |Placeholders|) ensures r == s {
      RoundTrip(s);
    }
  }

  // ---------------------------------------------------------------------------
  // remove_thinking_tags

  const ThinkingOpen: string := "<thinking>"
  const ThinkingClose: string := "</thinking>"

  /** `remove_thinking_tags` as written: it cuts from the first opening tag to the end of the
      first closing tag, wherever the two are. */
  function RemoveThinkingTags(s: string): (r: string)
    ensures !(Contains(s, ThinkingOpen) && Contains(s, ThinkingClose)) ==> r == s
  {
    if Contains(s, ThinkingOpen) && Contains(s, ThinkingClose) then
      var start := IndexOf(s, ThinkingOpen).value;
      var end := IndexOf(s, ThinkingClose).value + |ThinkingClose|;
      s[..start] + s[end..]
    else s
  }

  /** When the first closing tag comes before the first opening tag, the cut runs backwards and
      the text between the tags is repeated instead of removed. */
  lemma ClosingFirstRepeats(mid: string)
    requires forall k :: 0 <= k < |mid| ==> mid[k] != '<'
    ensures RemoveThinkingTags(ThinkingClose + mid + ThinkingOpen) == ThinkingClose + mid + mid + ThinkingOpen
  {
    var s := ThinkingClose + mid + ThinkingOpen;
    var at := |ThinkingClose| + |mid|;
    ClosingFirstIndices(mid);
    assert s[..at] == ThinkingClose + mid;
    assert s[|ThinkingClose|..] == mid + ThinkingOpen;
  }

  lemma ClosingFirstIndices(mid: string)
    requires forall k :: 0 <= k < |mid| ==> mid[k] != '<'
    ensures var s := ThinkingClose + mid + ThinkingOpen;
      IndexOf(s, ThinkingClose) == Some(0) && IndexOf(s, ThinkingOpen) == Some(|ThinkingClose| + |mid|)
  {
    var s := ThinkingClose + mid + ThinkingOpen;
    var at := |ThinkingClose| + |mid|;
    assert OccursAt(s, ThinkingClose, 0) by {
      assert s[..|ThinkingClose|] == ThinkingClose;
    }
    assert OccursAt(s, ThinkingOpen, at) by {
      assert s[at..] == ThinkingOpen;
    }
    assert forall k :: 0 < k < |ThinkingClose| ==> ThinkingClose[k] != '<';
    forall j | 0 <= j < at ensures !OccursAt(s, ThinkingOpen, j) {
      if j + |ThinkingOpen| <= |s| {
        if j == 0 {
          assert s[j..j + |ThinkingOpen|][1] == s[1] == '/';
        } else if j < |ThinkingClose| {
          assert s[j..j + |ThinkingOpen|][0] == ThinkingClose[j];
        } else {
          assert s[j..j + |ThinkingOpen|][0] == mid[j - |ThinkingClose|];
        }
      }
    }
    assert IndexOf(s, ThinkingClose) == Some(0);
    assert IndexOf(s, ThinkingOpen) == Some(at);
  }

  /** The removal the docstring describes: the first opening tag through the first closing tag
      after it. It never lengthens the text. */
  function RemoveThinkingBlock(s: string): (r: string)
    ensures |r| <= |s|
  {
    match IndexOf(s, ThinkingOpen)
    case None => s
    case Some(i) =>
      match IndexOfFrom(s, ThinkingClose, i + |ThinkingOpen|)
      case None => s
      case Some(j) => s[..i] + s[j + |ThinkingClose|..]
  }

  /** Text without an opening tag followed by a closing tag is returned as it is; text with
      one loses exactly one block, from an opening tag to the end of a later closing tag, so
      at least the two tags. */
  lemma BlockRemoved(s: string)
    ensures var r := RemoveThinkingBlock(s);
      r == s || (exists i, j :: 0 <= i && i + |ThinkingOpen| <= j && OccursAt(s, ThinkingOpen, i)
                               && OccursAt(s, ThinkingClose, j) && r == s[..i] + s[j + |ThinkingClose|..])
    ensures (exists i, j :: 0 <= i && i + |ThinkingOpen| <= j && OccursAt(s, ThinkingOpen, i) && OccursAt(s, ThinkingClose, j))
            ==> |RemoveThinkingBlock(s)| + |ThinkingOpen| + |ThinkingClose| <= |s|
  {
    BlockRemovedShape(s);
    BlockRemovedShrinks(s);
  }

  lemma BlockRemovedShape(s: string)
    ensures var r := RemoveThinkingBlock(s);
      r == s || (exists i, j :: 0 <= i && i + |ThinkingOpen| <= j && OccursAt(s, ThinkingOpen, i)
                               && OccursAt(s, ThinkingClose, j) && r == s[..i] + s[j + |ThinkingClose|..])
  {
    var o := IndexOf(s, ThinkingOpen);
    if o.Some? {
      var c := IndexOfFrom(s, ThinkingClose, o.value + |ThinkingOpen|);
      if c.Some? {
        assert OccursAt(s, ThinkingOpen, o.value) && OccursAt(s, ThinkingClose, c.value);
      }
    }
  }

  lemma BlockRemovedShrinks(s: string)
    ensures (exists i, j :: 0 <= i && i + |ThinkingOpen| <= j && OccursAt(s, ThinkingOpen, i) && OccursAt(s, ThinkingClose, j))
            ==> |RemoveThinkingBlock(s)| + |ThinkingOpen| + |ThinkingClose| <= |s|
  {
    forall i, j | 0 <= i && i + |ThinkingOpen| <= j && OccursAt(s, ThinkingOpen, i) && OccursAt(s, ThinkingClose, j)
      ensures |RemoveThinkingBlock(s)| + |ThinkingOpen| + |ThinkingClose| <= |s|
    {
      BlockRemovedShrinksAt(s, i, j);
    }
  }

  lemma BlockRemovedShrinksAt(s: string, i: nat, j: nat)
    requires i + |ThinkingOpen| <= j && OccursAt(s, ThinkingOpen, i) && OccursAt(s, ThinkingClose, j)
    ensures |RemoveThinkingBlock(s)| + |ThinkingOpen| + |ThinkingClose| <= |s|
  {
    var o := IndexOf(s, ThinkingOpen);
    assert o.Some? && o.value <= i;
    var c := IndexOfFrom(s, ThinkingClose, o.value + |ThinkingOpen|);
    assert c.Some? && c.value <= j;
    assert |RemoveThinkingBlock(s)| == o.value + (|s| - (c.value + |ThinkingClose|));
  }

  /** The first occurrence of `pat` is also the first from any earlier starting point. */
  lemma FirstFrom(s: string, pat: string, from: nat, j: nat)
    requires IndexOf(s, pat) == Some(j) && from <= j
    ensures IndexOfFrom(s, pat, from) == Some(j)
  {
    var c := IndexOfFrom(s, pat, from);
    assert OccursAt(s, pat, j);
    assert c.Some? && c.value <= j;
  }

  /** Where the code as written cuts, given the first opening and the first closing tag. */
  lemma TagsCutAt(s: string, i: nat, j: nat)
    requires IndexOf(s, ThinkingOpen) == Some(i) && IndexOf(s, ThinkingClose) == Some(j)
    ensures j + |ThinkingClose| <= |s|
    ensures RemoveThinkingTags(s) == s[..i] + s[j + |ThinkingClose|..]
  {
  }

  /** Where the corrected removal cuts, given the first opening tag and the first closing tag
      after it. */
  lemma BlockCutAt(s: string, i: nat, j: nat)
    requires IndexOf(s, ThinkingOpen) == Some(i) && IndexOfFrom(s, ThinkingClose, i + |ThinkingOpen|) == Some(j)
    ensures j + |ThinkingClose| <= |s|
    ensures RemoveThinkingBlock(s) == s[..i] + s[j + |ThinkingClose|..]
  {
    assert OccursAt(s, ThinkingClose, j);
    assert RemoveThinkingBlock(s) == s[..i] + s[j + |ThinkingClose|..];
  }

  /** Whenever the tags come in order, the code as written removes the same block. */
  lemma AgreesWhenOrdered(s: string)
    requires Contains(s, ThinkingOpen) && Contains(s, ThinkingClose)
    requires IndexOf(s, ThinkingOpen).value + |ThinkingOpen| <= IndexOf(s, ThinkingClose).value
    ensures RemoveThinkingTags(s) == RemoveThinkingBlock(s)
  {
    var i := IndexOf(s, ThinkingOpen).value;
    var j := IndexOf(s, ThinkingClose).value;
    FirstFrom(s, ThinkingClose, i + |ThinkingOpen|, j);
    TagsCutAt(s, i, j);
    BlockCutAt(s, i, j);
  }
}
