/** The review panel of one proposed batch (ModificationReview.tsx): the selection updaters, the
    status of each modification, and `handleApply`, which first checks that the document is
    still the one the batch was proposed for, then runs the selected modifications one at a
    time in its own order and records each one's result under its index in the list. */
module Review {
  import opened Wrappers
  import opened Strings
  import opened LocationGrammar
  import opened Document
  import opened Resolver
  import opened Host
  import opened Actions
  import opened Sorting
  import opened Indexer
  import opened Fingerprint
  import Engine

  // ---------------------------------------------------------------------------
  // Selection

  /** The indices `0 .. count - 1` in order: `modifications.map((_, i) => i)`. */
  function AllIndices(count: nat): (r: seq<nat>)
    ensures |r| == count && forall i :: 0 <= i < count ==> r[i] == i
    ensures forall i :: i in r <==> 0 <= i < count
  {
    if count == 0 then [] else AllIndices(count - 1) + [count - 1]
  }

  /** `prev.filter((i) => i !== index)`. */
  function Without(prev: seq<nat>, index: nat): (r: seq<nat>)
    ensures |r| <= |prev|
    ensures forall j :: j in r <==> j in prev && j != index
  {
    if prev == [] then []
    else (if prev[0] == index then [] else [prev[0]]) + Without(prev[1..], index)
  }

  /** `handleToggle(index)`: the one index changes its membership, every other keeps its own. */
  function Toggle(prev: seq<nat>, index: nat): (next: seq<nat>)
    ensures index in next <==> index !in prev
    ensures forall j :: j != index ==> (j in next <==> j in prev)
  {
    if index in prev then Without(prev, index) else prev + [index]
  }

  /** `handleToggleAll()`: compares the selection's length with the list's. */
  function ToggleAll(selected: seq<nat>, count: nat): seq<nat> {
    if |selected| == count then [] else AllIndices(count)
  }

  /** What the panel's selection always is: distinct indices of the list. */
  predicate SelectionOf(selected: seq<nat>, count: nat) {
    (forall i :: 0 <= i < |selected| ==> selected[i] < count)
    && forall i, j :: 0 <= i < j < |selected| ==> selected[i] != selected[j]
  }

  lemma {:induction false} WithoutKeepsSelection(prev: seq<nat>, index: nat, count: nat)
    requires SelectionOf(prev, count)
    ensures SelectionOf(Without(prev, index), count)
    decreases |prev|
  {
    if prev != [] {
      var rest := prev[1..];
      assert SelectionOf(rest, count) by {
        forall i, j | 0 <= i < j < |rest| ensures rest[i] != rest[j] {
          assert rest[i] == prev[i + 1] && rest[j] == prev[j + 1];
        }
      }
      WithoutKeepsSelection(rest, index, count);
      var head: seq<nat> := if prev[0] == index then [] else [prev[0]];
      var tail := Without(rest, index);
      var r := head + tail;
      assert prev[0] !in rest;
      forall i, j | 0 <= i < j < |r| ensures r[i] != r[j] {
        if i < |head| {
          assert r[i] == prev[0] && r[j] == tail[j - 1];
          assert tail[j - 1] in tail;
        } else {
          assert r[i] == tail[i - |head|] && r[j] == tail[j - |head|];
        }
      }
      forall i | 0 <= i < |r| ensures r[i] < count {
        if i >= |head| {
          assert r[i] == tail[i - |head|];
        }
      }
    }
  }

  /** Starting from every index, the panel's updaters keep the selection distinct and in range. */
  lemma TogglesKeepSelection(selected: seq<nat>, count: nat, index: nat)
    requires SelectionOf(selected, count) && index < count
    ensures SelectionOf(AllIndices(count), count)
    ensures SelectionOf(Toggle(selected, index), count)
    ensures SelectionOf(ToggleAll(selected, count), count)
  {
    if index in selected {
      WithoutKeepsSelection(selected, index, count);
    } else {
      var r := selected + [index];
      forall i, j | 0 <= i < j < |r| ensures r[i] != r[j] {
        if j == |selected| {
          assert r[i] == selected[i];
        } else {
          assert r[i] == selected[i] && r[j] == selected[j];
        }
      }
    }
  }

  function Elements(s: seq<nat>): set<nat> {
    set x | x in s
  }

  /** The elements of a list of distinct indices are as many as its length. */
  lemma {:induction false} DistinctCard(s: seq<nat>)
    requires forall i, j :: 0 <= i < j < |s| ==> s[i] != s[j]
    ensures |Elements(s)| == |s|
    decreases |s|
  {
    if s != [] {
      var init, last := s[..|s| - 1], s[|s| - 1];
      forall i, j | 0 <= i < j < |init| ensures init[i] != init[j] {
        assert init[i] == s[i] && init[j] == s[j];
      }
      DistinctCard(init);
      assert s == init + [last];
      var before := Elements(init);
      assert |before| == |init|;
      assert last !in init by {
        forall i | 0 <= i < |init| ensures init[i] != last {
          assert init[i] == s[i];
        }
      }
      assert Elements(s) == before + {last};
      assert |before + {last}| == |before| + 1;
    }
  }

  /** On a selection of the panel, comparing lengths is comparing contents: "select all"
      clears precisely when every modification is selected, and otherwise selects them all. */
  lemma ToggleAllClearsIffAllSelected(selected: seq<nat>, count: nat)
    requires SelectionOf(selected, count)
    ensures |selected| == count <==> forall i :: 0 <= i < count ==> i in selected
    ensures (forall i :: 0 <= i < count ==> i in selected) ==> ToggleAll(selected, count) == []
    ensures !(forall i :: 0 <= i < count ==> i in selected) ==>
      forall i :: i in ToggleAll(selected, count) <==> 0 <= i < count
  {
    var elems := Elements(selected);
    var range := Elements(AllIndices(count));
    DistinctCard(selected);
    DistinctCard(AllIndices(count));
    assert elems <= range;
    if |selected| == count {
      assert |range - elems| == 0;
      forall i | 0 <= i < count ensures i in selected {
        assert i in range;
        assert i !in range - elems;
      }
    }
    if forall i :: 0 <= i < count ==> i in selected {
      assert range <= elems;
      assert elems == range;
    }
  }

  // ---------------------------------------------------------------------------
  // Status of one modification

  datatype Status = Applied | Rejected | Error | Pending

  /** `getStatus(i)`: `errors[i]` and `successes[i]` are read for truthiness. */
  function GetStatus(i: nat, errors: map<nat, string>, successes: map<nat, bool>, disabled: bool,
                     appliedIndices: seq<nat>, rejectedIndices: seq<nat>): (s: Status)
    ensures s == Error <==> i in errors && errors[i] != ""
    ensures s == Applied <==>
      !(i in errors && errors[i] != "") && ((i in successes && successes[i]) || (disabled && i in appliedIndices))
    ensures s == Rejected <==>
      !(i in errors && errors[i] != "") && !(i in successes && successes[i])
      && disabled && i !in appliedIndices && i in rejectedIndices
  {
    if i in errors && errors[i] != "" then Error
    else if i in successes && successes[i] then Applied
    else if disabled && i in appliedIndices then Applied
    else if disabled && i in rejectedIndices then Rejected
    else Pending
  }

  // ---------------------------------------------------------------------------
  // The batch and its order

  /** A modification of the batch: the action, with `new_text` replaced when it was edited, and
      its `originalIndex` in the list. */
  datatype Mod = Mod(action: Action, originalIndex: nat)

  /** `{ ...mod, ...(i in editedTexts ? { new_text: editedTexts[i] } : {}), originalIndex: i }` */
  function WithEdit(modifications: seq<Action>, editedTexts: map<nat, string>, i: nat): Mod
    requires i < |modifications|
  {
    Mod(if i in editedTexts then modifications[i].(newText := editedTexts[i]) else modifications[i], i)
  }

  /** The first `n` modifications, edited, kept when selected: the `map` and `filter` steps. */
  function Selection(modifications: seq<Action>, editedTexts: map<nat, string>, selected: seq<nat>, n: nat): (r: seq<Mod>)
    requires n <= |modifications|
    ensures forall j :: 0 <= j < |r| ==> r[j].originalIndex < n
  {
    if n == 0 then []
    else
      Selection(modifications, editedTexts, selected, n - 1)
      + (if n - 1 in selected then [WithEdit(modifications, editedTexts, n - 1)] else [])
  }

  /** `m` is one of the list's modifications, selected, with its edit applied. */
  predicate SelectedMod(modifications: seq<Action>, editedTexts: map<nat, string>, selected: seq<nat>, m: Mod) {
    m.originalIndex < |modifications| && m.originalIndex in selected
    && m == WithEdit(modifications, editedTexts, m.originalIndex)
  }

  datatype OperationType = ParagraphOp | TableCellOp | TableRowOp

  /** `getOperationType`: the row actions by name, then the unprefixed cell pattern on `loc`. */
  function OperationTypeOf(a: Action): OperationType {
    if a.action == "delete_row" || a.action == "insert_row" then TableRowOp
    else if Match(BareTableCellPattern, a.loc).Some? then TableCellOp
    else ParagraphOp
  }

  /** `typePriority`. */
  function Priority(t: OperationType): int {
    match t
    case ParagraphOp => 0
    case TableCellOp => 1
    case TableRowOp => 2
  }

  /** `parseLocation`: the numbers of an unprefixed paragraph, cell or row key, else `[0]`. */
  function ParseLocation(loc: string): (keys: seq<nat>)
    ensures |keys| == 1 || |keys| == 2 || |keys| == 4
  {
    PatternCaptureCounts();
    if loc == "" then [0]
    else match Match(BareParagraphPattern, loc)
      case Some(n) => n
      case None =>
        match Match(BareTableCellPattern, loc)
        case Some(cell) => cell
        case None =>
          match Match(BareRowPattern, loc)
          case Some(row) => row
          case None => [0]
  }

  /** `aKeys[i] ?? 0` at the first position. */
  function Head(keys: seq<nat>): nat {
    if keys == [] then 0 else keys[0]
  }

  function Tail(keys: seq<nat>): seq<nat> {
    if keys == [] then [] else keys[1..]
  }

  /** The `for` loop over `Math.max(aKeys.length, bKeys.length)` positions: at the first position
      where the numbers differ, `bKey - aKey`, a missing number reading as 0; else 0. */
  function KeyOrder(aKeys: seq<nat>, bKeys: seq<nat>): int
    decreases |aKeys| + |bKeys|
  {
    if aKeys == [] && bKeys == [] then 0
    else if Head(aKeys) != Head(bKeys) then Head(bKeys) - Head(aKeys)
    else KeyOrder(Tail(aKeys), Tail(bKeys))
  }

  /** `keys[i ..]`, empty once `i` is past the end. */
  function Drop(keys: seq<nat>, i: nat): seq<nat> {
    if i < |keys| then keys[i..] else []
  }

  /** The loop itself. */
  method CompareKeys(aKeys: seq<nat>, bKeys: seq<nat>) returns (c: int)
    ensures c == KeyOrder(aKeys, bKeys)
  {
    var n := if |aKeys| >= |bKeys| then |aKeys| else |bKeys|;
    var i := 0;
    while i < n
      invariant 0 <= i <= n
      invariant KeyOrder(aKeys, bKeys) == KeyOrder(Drop(aKeys, i), Drop(bKeys, i))
    {
      var aKey: int := if i < |aKeys| then aKeys[i] else 0;
      var bKey: int := if i < |bKeys| then bKeys[i] else 0;
      assert Head(Drop(aKeys, i)) == aKey && Head(Drop(bKeys, i)) == bKey;
      assert Tail(Drop(aKeys, i)) == Drop(aKeys, i + 1) && Tail(Drop(bKeys, i)) == Drop(bKeys, i + 1);
      if aKey != bKey {
        return bKey - aKey;
      }
      i := i + 1;
    }
    assert Drop(aKeys, i) == [] && Drop(bKeys, i) == [];
    c := 0;
  }

  /** `a.withinPara?.occurrence ?? -1`. */
  function Occurrence(a: Action): int {
    match a.withinPara
    case None => -1
    case Some(w) => w.occurrence
  }

  /** The comparator of `handleApply`'s sort. */
  function Compare(x: Mod, y: Mod): int {
    var a, b := x.action, y.action;
    var pa, pb := Priority(OperationTypeOf(a)), Priority(OperationTypeOf(b));
    if pa != pb then pa - pb
    else
      var k := KeyOrder(ParseLocation(a.loc), ParseLocation(b.loc));
      if k != 0 then k
      else if Occurrence(a) != Occurrence(b) then Occurrence(b) - Occurrence(a)
      else 0
  }

  /** Swapping the tuples negates the loop's result. */
  lemma {:induction false} KeyOrderAntisymmetric(a: seq<nat>, b: seq<nat>)
    ensures KeyOrder(b, a) == -KeyOrder(a, b)
    decreases |a| + |b|
  {
    if !(a == [] && b == []) && Head(a) == Head(b) {
      KeyOrderAntisymmetric(Tail(a), Tail(b));
    }
  }

  /** The loop's order on tuples is transitive. */
  lemma {:induction false} KeyOrderTransitive(a: seq<nat>, b: seq<nat>, c: seq<nat>)
    requires KeyOrder(a, b) <= 0 && KeyOrder(b, c) <= 0
    ensures KeyOrder(a, c) <= 0
    decreases |a| + |b| + |c|
  {
    if a == [] && c == [] {
    } else if a == [] && b == [] {
    } else if b == [] && c == [] {
    } else if Head(a) == Head(b) && Head(b) == Head(c) {
      KeyOrderTransitive(Tail(a), Tail(b), Tail(c));
    }
  }

  /** Tuples the loop ties are tied with the same tuples. */
  lemma KeyOrderTies(a: seq<nat>, b: seq<nat>, c: seq<nat>)
    ensures KeyOrder(a, b) == 0 ==> (KeyOrder(a, c) < 0 <==> KeyOrder(b, c) < 0)
    ensures KeyOrder(a, b) == 0 ==> (KeyOrder(a, c) == 0 <==> KeyOrder(b, c) == 0)
  {
    KeyOrderAntisymmetric(a, b);
    KeyOrderAntisymmetric(a, c);
    KeyOrderAntisymmetric(b, c);
    if KeyOrder(a, b) == 0 {
      if KeyOrder(a, c) <= 0 { KeyOrderTransitive(b, a, c); }
      if KeyOrder(b, c) <= 0 { KeyOrderTransitive(a, b, c); }
      if KeyOrder(c, a) <= 0 { KeyOrderTransitive(c, a, b); }
      if KeyOrder(c, b) <= 0 { KeyOrderTransitive(c, b, a); }
    }
  }

  lemma CompareAntisymmetric(x: Mod, y: Mod)
    ensures Compare(y, x) == -Compare(x, y)
  {
    KeyOrderAntisymmetric(ParseLocation(x.action.loc), ParseLocation(y.action.loc));
  }

  lemma CompareTransitive(x: Mod, y: Mod, z: Mod)
    requires Compare(x, y) <= 0 && Compare(y, z) <= 0
    ensures Compare(x, z) <= 0
  {
    var a, b, c := ParseLocation(x.action.loc), ParseLocation(y.action.loc), ParseLocation(z.action.loc);
    var pa, pb, pc := Priority(OperationTypeOf(x.action)), Priority(OperationTypeOf(y.action)), Priority(OperationTypeOf(z.action));
    if pa == pb && pb == pc {
      assert KeyOrder(a, b) <= 0 && KeyOrder(b, c) <= 0;
      KeyOrderTransitive(a, b, c);
      if KeyOrder(a, c) == 0 {
        KeyOrderAntisymmetric(b, c);
        KeyOrderTies(a, c, b);
        KeyOrderTies(a, b, c);
        assert KeyOrder(a, b) == 0 && KeyOrder(b, c) == 0;
      }
    }
  }

  /** The comparator is consistent, so the sort orders the batch by it. */
  lemma CompareIsTotalPreorder()
    ensures TotalPreorder(Compare)
  {
    forall x, y ensures Compare(x, y) < 0 <==> Compare(y, x) > 0 {
      CompareAntisymmetric(x, y);
    }
    forall x, y, z | Compare(x, y) <= 0 && Compare(y, z) <= 0 ensures Compare(x, z) <= 0 {
      CompareTransitive(x, y, z);
    }
  }

  /** The batch `handleApply` runs: the selection, sorted. */
  function Batch(modifications: seq<Action>, editedTexts: map<nat, string>, selected: seq<nat>): seq<Mod> {
    Sort(Selection(modifications, editedTexts, selected, |modifications|), Compare)
  }

  /** The indices a batch carries. */
  function Indices(batch: seq<Mod>): set<nat> {
    set m | m in batch :: m.originalIndex
  }

  lemma {:induction false} SelectionIndices(modifications: seq<Action>, editedTexts: map<nat, string>,
                                            selected: seq<nat>, n: nat)
    requires n <= |modifications|
    ensures Indices(Selection(modifications, editedTexts, selected, n)) == set i | 0 <= i < n && i in selected
    ensures forall m :: m in Selection(modifications, editedTexts, selected, n) ==>
      m == WithEdit(modifications, editedTexts, m.originalIndex)
    ensures var s := Selection(modifications, editedTexts, selected, n);
      forall i, j :: 0 <= i < j < |s| ==> s[i].originalIndex < s[j].originalIndex
    decreases n
  {
    if n > 0 {
      SelectionIndices(modifications, editedTexts, selected, n - 1);
      var init := Selection(modifications, editedTexts, selected, n - 1);
      var s := Selection(modifications, editedTexts, selected, n);
      var extra: seq<Mod> := if n - 1 in selected then [WithEdit(modifications, editedTexts, n - 1)] else [];
      assert s == init + extra;
      assert Indices(s) == Indices(init) + (if n - 1 in selected then {n - 1} else {});
    }
  }

  /** A list of distinct elements holds each at most once. */
  lemma {:induction false} DistinctCount<T>(s: seq<T>, x: T)
    requires forall i, j :: 0 <= i < j < |s| ==> s[i] != s[j]
    ensures multiset(s)[x] <= 1
    decreases |s|
  {
    if s != [] {
      var init := s[..|s| - 1];
      DistinctCount(init, x);
      assert s == init + [s[|s| - 1]];
      assert s[|s| - 1] !in init;
    }
  }

  /** Two positions holding one value make the value count twice. */
  lemma RepeatCount<T>(s: seq<T>, i: nat, j: nat)
    requires i < j < |s|
    ensures s[i] == s[j] ==> multiset(s)[s[i]] >= 2
  {
    assert s == s[..j] + [s[j]] + s[j + 1..];
    assert s[i] == s[..j][i];
  }

  /** A permutation of a list of distinct elements has distinct elements. */
  lemma PermutationOfDistinct<T>(s: seq<T>, b: seq<T>)
    requires multiset(b) == multiset(s)
    requires forall i, j :: 0 <= i < j < |s| ==> s[i] != s[j]
    ensures forall i, j :: 0 <= i < j < |b| ==> b[i] != b[j]
  {
    forall i, j | 0 <= i < j < |b| ensures b[i] != b[j] {
      DistinctCount(s, b[i]);
      RepeatCount(b, i, j);
    }
  }

  /** A permutation of a list whose elements carry distinct keys carries distinct keys too. */
  lemma PermutationKeysDistinct<T>(s: seq<T>, b: seq<T>, key: T -> nat)
    requires multiset(b) == multiset(s)
    requires forall i, j :: 0 <= i < j < |s| ==> key(s[i]) != key(s[j])
    ensures forall i, j :: 0 <= i < j < |b| ==> key(b[i]) != key(b[j])
  {
    SameElements(s, b);
    PermutationOfDistinct(s, b);
    forall i, j | 0 <= i < j < |b| ensures key(b[i]) != key(b[j]) {
      assert b[i] in s && b[j] in s;
      var p :| 0 <= p < |s| && s[p] == b[i];
      var q :| 0 <= q < |s| && s[q] == b[j];
      assert p != q;
    }
  }

  /** A permutation holds the same elements. */
  lemma SameElements<T>(s: seq<T>, b: seq<T>)
    requires multiset(b) == multiset(s)
    ensures forall m :: m in b <==> m in s
  {
    forall m ensures m in b <==> m in s {
      assert m in b <==> m in multiset(b);
    }
  }

  /** Two modifications of the batch never share an index. */
  lemma BatchIndicesDistinct(modifications: seq<Action>, editedTexts: map<nat, string>, selected: seq<nat>)
    ensures var b := Batch(modifications, editedTexts, selected);
      forall i, j :: 0 <= i < j < |b| ==> b[i].originalIndex != b[j].originalIndex
    ensures Indices(Batch(modifications, editedTexts, selected)) == set i | 0 <= i < |modifications| && i in selected
  {
    var s := Selection(modifications, editedTexts, selected, |modifications|);
    var b := Batch(modifications, editedTexts, selected);
    SelectionIndices(modifications, editedTexts, selected, |modifications|);
    SortPermutes(s, Compare);
    SameElements(s, b);
    var key := (m: Mod) => m.originalIndex;
    PermutationKeysDistinct(s, b, key);
    assert forall i, j :: 0 <= i < j < |b| ==> key(b[i]) != key(b[j]);
  }


  /** The batch holds exactly the selected modifications, edited, in the comparator's order,
      selected modifications the comparator ties keeping their order in the list. */
  lemma BatchIsSelection(modifications: seq<Action>, editedTexts: map<nat, string>, selected: seq<nat>)
    ensures forall m :: m in Batch(modifications, editedTexts, selected) <==> SelectedMod(modifications, editedTexts, selected, m)
    ensures Ordered(Batch(modifications, editedTexts, selected), Compare)
    ensures forall e ::
      TiedWith(Batch(modifications, editedTexts, selected), Compare, e)
      == TiedWith(Selection(modifications, editedTexts, selected, |modifications|), Compare, e)
  {
    var s := Selection(modifications, editedTexts, selected, |modifications|);
    var b := Batch(modifications, editedTexts, selected);
    SelectionIndices(modifications, editedTexts, selected, |modifications|);
    SortPermutes(s, Compare);
    CompareIsTotalPreorder();
    SortOrders(s, Compare);
    forall e ensures TiedWith(b, Compare, e) == TiedWith(s, Compare, e) {
      SortStable(s, Compare, e);
    }
    forall m ensures m in b <==> SelectedMod(modifications, editedTexts, selected, m) {
      assert m in b <==> m in multiset(b);
      if m in s {
        assert m.originalIndex in Indices(s);
      }
      if SelectedMod(modifications, editedTexts, selected, m) {
        assert m.originalIndex in Indices(s);
        var m' :| m' in s && m'.originalIndex == m.originalIndex;
      }
    }
  }

  /** Row actions come last whatever their key; a key that starts with a docPosition has no
      unprefixed form, so it is never classed as a cell and its tuple is `[0]`. */
  lemma PrefixedKeysClassed(a: Action)
    requires |a.loc| > 0 && IsDigit(a.loc[0])
    ensures ParseLocation(a.loc) == [0]
    ensures OperationTypeOf(a) == if a.action == "delete_row" || a.action == "insert_row" then TableRowOp else ParagraphOp
  {
    PrefixedKeysAreNotBare(a.loc);
  }

  /** The unprefixed keys parse to the numbers they were written with. */
  lemma BareKeysParsed(t: nat, r: nat, c: nat, k: nat, n: nat)
    ensures ParseLocation(BareParagraphKey(n)) == [n]
    ensures ParseLocation(BareTableCellKey(t, r, c, k)) == [t, r, c, k]
    ensures ParseLocation(BareRowKey(t, r)) == [t, r]
  {
    BareParagraphKeyMatches(n);
    BareTableCellKeyMatches(t, r, c, k);
    BareRowKeyMatches(t, r);
    BareRowIsNotCell(BareRowKey(t, r));
  }

  /** Every key the document index gives starts with a digit. */
  lemma IndexKeyPrefixed(fs: seq<FlatPara>, i: nat)
    requires i < |fs|
    ensures |KeyOf(fs, i)| > 0 && IsDigit(KeyOf(fs, i)[0])
  {
    var d := NatToDecimal(i);
    assert IsDigit(d[0]);
  }

  /** So the comparator ties two modifications of the same kind addressed by the index's own
      keys without `withinPara`, whatever the paragraphs: the sort then keeps them in list order. */
  lemma IndexKeysTie(fs: seq<FlatPara>, i: nat, j: nat, x: Mod, y: Mod)
    requires i < |fs| && j < |fs|
    requires x.action.loc == KeyOf(fs, i) && y.action.loc == KeyOf(fs, j)
    requires x.action.withinPara.None? && y.action.withinPara.None?
    requires OperationTypeOf(x.action) == OperationTypeOf(y.action)
    ensures Compare(x, y) == 0
  {
    IndexKeyPrefixed(fs, i);
    IndexKeyPrefixed(fs, j);
    PrefixedKeysClassed(x.action);
    PrefixedKeysClassed(y.action);
    assert KeyOrder([0], [0]) == KeyOrder([], []) == 0;
  }

  // ---------------------------------------------------------------------------
  // handleApply

  /** What the panel hands to `onApply`, and the records it keeps. */
  datatype ApplyResult =
    | HashMismatch(rejected: seq<nat>)
    | Finished(errors: map<nat, string>, successes: map<nat, bool>, applied: seq<nat>, rejected: seq<nat>)

  /** `modifications.map((_, i) => i).filter((i) => !selectedMods.includes(i))` */
  function Unselected(selected: seq<nat>, count: nat): (r: seq<nat>)
    ensures forall i :: i in r <==> 0 <= i < count && i !in selected
    ensures forall i, j :: 0 <= i < j < |r| ==> r[i] < r[j]
  {
    if count == 0 then []
    else
      var init := Unselected(selected, count - 1);
      assert forall i :: 0 <= i < |init| ==> init[i] in init;
      init + (if count - 1 in selected then [] else [count - 1])
  }

  /** The document and the two records as the loop goes. */
  datatype ApplyState = ApplyState(doc: Doc, errors: map<nat, string>, successes: map<nat, bool>)

  /** The `try`/`catch` around one call: the document after it, and its outcome filed under `index`. */
  function Record(st: ApplyState, index: nat, d: Doc, outcome: Outcome): (st': ApplyState)
    ensures st'.errors.Keys + st'.successes.Keys == st.errors.Keys + st.successes.Keys + {index}
  {
    match outcome
    case Pass => ApplyState(d, st.errors, st.successes[index := true])
    case Fail(e) => ApplyState(d, st.errors[index := e], st.successes)
  }

  /** Filing a fresh index keeps the records apart, a failure's message non-empty and a success `true`. */
  lemma RecordKeeps(st: ApplyState, index: nat, d: Doc, outcome: Outcome)
    requires index !in st.errors && index !in st.successes && st.errors.Keys !! st.successes.Keys
    requires forall k :: k in st.errors ==> st.errors[k] != ""
    requires forall k :: k in st.successes ==> st.successes[k]
    requires outcome.Fail? ==> outcome.error != ""
    ensures var st' := Record(st, index, d, outcome);
      st'.errors.Keys !! st'.successes.Keys
      && (forall k :: k in st'.errors ==> st'.errors[k] != "")
      && (forall k :: k in st'.successes ==> st'.successes[k])
  {
  }

  /** One iteration: `executeWordAction([mod])`, then its outcome under the mod's index. */
  function ApplyOne(st: ApplyState, m: Mod, ext: Engine.External): ApplyState {
    var r := Engine.ExecuteWordActions(st.doc, [m.action], ext);
    Record(st, m.originalIndex, r.0, r.1)
  }

  function ApplyAll(st: ApplyState, batch: seq<Mod>, ext: Engine.External): ApplyState {
    if batch == [] then st else ApplyOne(ApplyAll(st, batch[..|batch| - 1], ext), batch[|batch| - 1], ext)
  }

  /** Running one more mod of a batch applies it to what the ones before it left. */
  lemma ApplyAllSnoc(st: ApplyState, batch: seq<Mod>, i: nat, ext: Engine.External)
    requires i < |batch|
    ensures ApplyAll(st, batch[..i + 1], ext) == ApplyOne(ApplyAll(st, batch[..i], ext), batch[i], ext)
  {
    assert batch[..i + 1][..i] == batch[..i];
  }

  /** What `handleApply` does to the document and what it reports. */
  function HandleApplyEffect(d: Doc, modifications: seq<Action>, editedTexts: map<nat, string>,
                             selected: seq<nat>, documentHashWhenSent: string, ext: Engine.External): (Doc, ApplyResult)
  {
    if documentHashWhenSent != "" && Hash(Snapshot(Flat(d.body))) != documentHashWhenSent then
      (d, HashMismatch(AllIndices(|modifications|)))
    else
      var final := ApplyAll(ApplyState(d, map[], map[]), Batch(modifications, editedTexts, selected), ext);
      (final.doc, Finished(final.errors, final.successes, selected, Unselected(selected, |modifications|)))
  }

  method HandleApply(word: WordDocument, modifications: seq<Action>, editedTexts: map<nat, string>,
                     selectedMods: seq<nat>, documentHashWhenSent: string, ext: Engine.External)
    returns (result: ApplyResult)
    modifies word
    ensures (word.State(), result)
      == HandleApplyEffect(old(word.State()), modifications, editedTexts, selectedMods, documentHashWhenSent, ext)
  {
    if documentHashWhenSent != "" {
      var fs := Flat(word.body);
      var isEmpty := IsDocumentEmpty(BodyText(fs));
      var currentDoc := if isEmpty then "" else DocumentContent(fs);
      var currentHash := SimpleHash(currentDoc);
      if currentHash != documentHashWhenSent {
        return HashMismatch(AllIndices(|modifications|));
      }
    }
    var modsToApply := Batch(modifications, editedTexts, selectedMods);
    var newErrors: map<nat, string> := map[];
    var newSuccesses: map<nat, bool> := map[];
    ghost var start := ApplyState(word.State(), newErrors, newSuccesses);
    for i := 0 to |modsToApply|
      invariant ApplyState(word.State(), newErrors, newSuccesses) == ApplyAll(start, modsToApply[..i], ext)
    {
      var mod := modsToApply[i];
      ghost var before := ApplyState(word.State(), newErrors, newSuccesses);
      var outcome := Engine.ExecuteWordAction(word, [mod.action], ext);
      if outcome.Pass? {
        newSuccesses := newSuccesses[mod.originalIndex := true];
      } else {
        newErrors := newErrors[mod.originalIndex := outcome.error];
      }
      assert ApplyState(word.State(), newErrors, newSuccesses) == ApplyOne(before, mod, ext);
      ApplyAllSnoc(start, modsToApply, i, ext);
    }
    assert modsToApply[..|modsToApply|] == modsToApply;
    var applied := selectedMods;
    var rejected := Unselected(selectedMods, |modifications|);
    result := Finished(newErrors, newSuccesses, applied, rejected);
  }

  // ---------------------------------------------------------------------------
  // Properties of handleApply

  /** On a document whose fingerprint differs from the one taken at send time, nothing runs
      and every modification is reported rejected. */
  lemma MismatchRejectsAll(d: Doc, modifications: seq<Action>, editedTexts: map<nat, string>,
                           selected: seq<nat>, hash: string, ext: Engine.External)
    requires hash != "" && Hash(Snapshot(Flat(d.body))) != hash
    ensures HandleApplyEffect(d, modifications, editedTexts, selected, hash, ext) == (d, HashMismatch(AllIndices(|modifications|)))
    ensures forall i :: i in AllIndices(|modifications|) <==> 0 <= i < |modifications|
  {
  }

  /** A failed call reports a non-empty message. */
  lemma FailureMessagesNonEmpty(d: Doc, actions: seq<Action>, ext: Engine.External)
    ensures Engine.ExecuteWordActions(d, actions, ext).1.Fail? ==> Engine.ExecuteWordActions(d, actions, ext).1.error != ""
  {
  }

  /** The records hold exactly the indices `done`, each under one of them, with a non-empty
      message for a failure and `true` for a success. */
  predicate WellRecorded(st: ApplyState, done: set<nat>) {
    st.errors.Keys + st.successes.Keys == done && st.errors.Keys !! st.successes.Keys
    && (forall k :: k in st.errors ==> st.errors[k] != "")
    && (forall k :: k in st.successes ==> st.successes[k])
  }

  lemma ApplyOneRecords(st: ApplyState, done: set<nat>, m: Mod, ext: Engine.External)
    requires WellRecorded(st, done) && m.originalIndex !in done
    ensures WellRecorded(ApplyOne(st, m, ext), done + {m.originalIndex})
  {
    var r := Engine.ExecuteWordActions(st.doc, [m.action], ext);
    FailureMessagesNonEmpty(st.doc, [m.action], ext);
    RecordKeeps(st, m.originalIndex, r.0, r.1);
  }

  /** A batch's indices are its first part's and its last mod's. */
  lemma IndicesSnoc(init: seq<Mod>, m: Mod)
    ensures Indices(init + [m]) == Indices(init) + {m.originalIndex}
  {
    assert forall x :: x in init + [m] <==> x in init || x == m;
  }

  /** In a batch of distinct indices, the last index is not among the others, and the others are
      distinct. */
  lemma LastIndexFresh(batch: seq<Mod>)
    requires batch != []
    requires forall i, j :: 0 <= i < j < |batch| ==> batch[i].originalIndex != batch[j].originalIndex
    ensures batch[|batch| - 1].originalIndex !in Indices(batch[..|batch| - 1])
    ensures var init := batch[..|batch| - 1];
      forall i, j :: 0 <= i < j < |init| ==> init[i].originalIndex != init[j].originalIndex
  {
    var init := batch[..|batch| - 1];
    forall p | 0 <= p < |init| ensures init[p].originalIndex != batch[|batch| - 1].originalIndex {
      assert init[p] == batch[p];
    }
  }

  /** One more mod, with an index not yet recorded, keeps the records well formed. */
  lemma ApplyAllSnocRecords(st: ApplyState, init: seq<Mod>, m: Mod, ext: Engine.External)
    requires WellRecorded(ApplyAll(st, init, ext), Indices(init)) && m.originalIndex !in Indices(init)
    ensures WellRecorded(ApplyAll(st, init + [m], ext), Indices(init + [m]))
  {
    assert (init + [m])[..|init|] == init;
    ApplyOneRecords(ApplyAll(st, init, ext), Indices(init), m, ext);
    IndicesSnoc(init, m);
  }

  /** Running a batch of distinct indices from empty records files each index under exactly one record. */
  lemma {:induction false} ApplyAllRecords(d: Doc, batch: seq<Mod>, ext: Engine.External)
    requires forall i, j :: 0 <= i < j < |batch| ==> batch[i].originalIndex != batch[j].originalIndex
    ensures WellRecorded(ApplyAll(ApplyState(d, map[], map[]), batch, ext), Indices(batch))
    decreases |batch|
  {
    if batch == [] {
      assert Indices(batch) == {};
    } else {
      var init := batch[..|batch| - 1];
      LastIndexFresh(batch);
      ApplyAllRecords(d, init, ext);
      assert batch == init + [batch[|batch| - 1]];
      ApplyAllSnocRecords(ApplyState(d, map[], map[]), init, batch[|batch| - 1], ext);
    }
  }

  /** After a run, every selected index is in exactly one of the two records (a failed
      modification counts as applied all the same), no other index is in either, and the
      rejected ones are the others. */
  lemma ResultsPartition(d: Doc, modifications: seq<Action>, editedTexts: map<nat, string>,
                         selected: seq<nat>, hash: string, ext: Engine.External)
    ensures var (_, r) := HandleApplyEffect(d, modifications, editedTexts, selected, hash, ext);
      r.Finished? ==>
        && (forall i :: i in r.errors || i in r.successes <==> 0 <= i < |modifications| && i in selected)
        && r.errors.Keys !! r.successes.Keys
        && r.applied == selected
        && (forall i :: i in r.rejected <==> 0 <= i < |modifications| && i !in selected)
  {
    var b := Batch(modifications, editedTexts, selected);
    BatchIndicesDistinct(modifications, editedTexts, selected);
    ApplyAllRecords(d, b, ext);
    RecordsPartition(ApplyAll(ApplyState(d, map[], map[]), b, ext), Indices(b), |modifications|, selected);
  }

  /** Records of exactly the selected indices below `n` hold each of them once. */
  lemma RecordsPartition(final: ApplyState, done: set<nat>, n: nat, selected: seq<nat>)
    requires WellRecorded(final, done) && done == set i | 0 <= i < n && i in selected
    ensures forall i :: i in final.errors || i in final.successes <==> 0 <= i < n && i in selected
    ensures final.errors.Keys !! final.successes.Keys
  {
    forall i ensures i in final.errors || i in final.successes <==> i in done {
      assert i in final.errors <==> i in final.errors.Keys;
    }
  }

  /** Once the panel is disabled with the indices it reported, a selected index shows an
      error or applied and an unselected one shows rejected. */
  lemma StatusAfterApply(d: Doc, modifications: seq<Action>, editedTexts: map<nat, string>,
                         selected: seq<nat>, hash: string, ext: Engine.External, i: nat)
    requires i < |modifications|
    requires HandleApplyEffect(d, modifications, editedTexts, selected, hash, ext).1.Finished?
    ensures var r := HandleApplyEffect(d, modifications, editedTexts, selected, hash, ext).1;
      var s := GetStatus(i, r.errors, r.successes, true, r.applied, r.rejected);
      (i in selected ==> s == Error || s == Applied) && (i !in selected ==> s == Rejected)
  {
    BatchIndicesDistinct(modifications, editedTexts, selected);
    ApplyAllRecords(d, Batch(modifications, editedTexts, selected), ext);
  }
}
