/** The location keys and the anchored regular expressions that read them.

    Every expression the source applies to a location is a sequence of literal
    characters and `\d+` groups, anchored at both ends, in which every `\d+` is
    followed by a non-digit literal or by the end. For such expressions the
    greedy reading of each digit run is the only way to match, so a pattern is
    modelled as a list of tokens and matched left to right without backtracking. */
module LocationGrammar {
  import opened Wrappers
  import opened Strings

  /** A literal character, or a `\d+` group; `capture` says whether it is parenthesised. */
  datatype Token = Lit(c: char) | Num(capture: bool)

  /** What the model's matcher relies on: every digit run ends at a non-digit literal or at the end. */
  predicate WellFormed(pat: seq<Token>) {
    forall i :: 0 <= i < |pat| && pat[i].Num? ==>
      i + 1 == |pat| || (pat[i + 1].Lit? && !IsDigit(pat[i + 1].c))
  }

  /** The length of the longest run of digits at the start of `s`. */
  function DigitRun(s: string): (n: nat)
    ensures n <= |s|
    ensures forall i :: 0 <= i < n ==> IsDigit(s[i])
    ensures n < |s| ==> !IsDigit(s[n])
  {
    if s == [] || !IsDigit(s[0]) then 0 else 1 + DigitRun(s[1..])
  }

  /** `s.match(/^pat$/)`: the values of the captured groups, in order, or None when there is no match. */
  function Match(pat: seq<Token>, s: string): (r: Option<seq<nat>>)
    ensures r.Some? ==> |r.value| == CaptureCount(pat)
    decreases |pat|
  {
    if pat == [] then (if s == [] then Some([]) else None)
    else match pat[0]
      case Lit(c) =>
        if |s| > 0 && s[0] == c then Match(pat[1..], s[1..]) else None
      case Num(capture) =>
        var n := DigitRun(s);
        assert AllDigits(s[..n]);
        if n == 0 then None
        else match Match(pat[1..], s[n..])
          case None => None
          case Some(rest) => Some((if capture then [DigitsValue(s[..n])] else []) + rest)
  }

  /** The number of parenthesised groups. */
  function CaptureCount(pat: seq<Token>): nat {
    if pat == [] then 0 else (if pat[0].Num? && pat[0].capture then 1 else 0) + CaptureCount(pat[1..])
  }

  lemma {:induction false} CaptureCountAppend(p: seq<Token>, q: seq<Token>)
    ensures CaptureCount(p + q) == CaptureCount(p) + CaptureCount(q)
  {
    if p != [] {
      assert (p + q)[1..] == p[1..] + q;
      CaptureCountAppend(p[1..], q);
    } else {
      assert p + q == q;
    }
  }

  function NumCount(pat: seq<Token>): nat {
    if pat == [] then 0 else (if pat[0].Num? then 1 else 0) + NumCount(pat[1..])
  }

  /** The key a pattern describes when its digit groups hold `nums`, each written in decimal. */
  function Render(pat: seq<Token>, nums: seq<nat>): string
    requires |nums| == NumCount(pat)
  {
    if pat == [] then ""
    else match pat[0]
      case Lit(c) => [c] + Render(pat[1..], nums)
      case Num(_) => NatToDecimal(nums[0]) + Render(pat[1..], nums[1..])
  }

  /** The numbers of `nums` that stand in captured groups. */
  function Captures(pat: seq<Token>, nums: seq<nat>): seq<nat>
    requires |nums| == NumCount(pat)
  {
    if pat == [] then []
    else match pat[0]
      case Lit(_) => Captures(pat[1..], nums)
      case Num(capture) => (if capture then [nums[0]] else []) + Captures(pat[1..], nums[1..])
  }

  lemma {:induction false} NumCountAppend(p: seq<Token>, q: seq<Token>)
    ensures NumCount(p + q) == NumCount(p) + NumCount(q)
    decreases |p|
  {
    if p == [] {
      assert p + q == q;
    } else {
      assert (p + q)[1..] == p[1..] + q;
      NumCountAppend(p[1..], q);
    }
  }

  lemma SeqAssoc(x: string, y: string, z: string)
    ensures x + (y + z) == (x + y) + z
  {
  }

  /** Rendering a concatenation of patterns renders each in turn. */
  lemma {:induction false} RenderAppend(p: seq<Token>, q: seq<Token>, a: seq<nat>, b: seq<nat>)
    requires |a| == NumCount(p) && |b| == NumCount(q)
    ensures NumCount(p + q) == |a| + |b|
    ensures Render(p + q, a + b) == Render(p, a) + Render(q, b)
    decreases |p|
  {
    NumCountAppend(p, q);
    if p == [] {
      assert p + q == q && a + b == b;
    } else {
      var pq := p + q;
      assert pq[0] == p[0] && pq[1..] == p[1..] + q;
      NumCountAppend(p[1..], q);
      match p[0]
      case Lit(c) =>
        RenderAppend(p[1..], q, a, b);
        var r1, r2 := Render(p[1..], a), Render(q, b);
        assert Render(pq, a + b) == [c] + (r1 + r2);
        SeqAssoc([c], r1, r2);
      case Num(_) =>
        RenderAppend(p[1..], q, a[1..], b);
        var ab := a + b;
        assert ab[0] == a[0] && ab[1..] == a[1..] + b;
        var x, r1, r2 := NatToDecimal(a[0]), Render(p[1..], a[1..]), Render(q, b);
        assert Render(pq, ab) == x + (r1 + r2);
        SeqAssoc(x, r1, r2);
    }
  }

  /** Reading the captures of a concatenation reads each part's in turn. */
  lemma {:induction false} CapturesAppend(p: seq<Token>, q: seq<Token>, a: seq<nat>, b: seq<nat>)
    requires |a| == NumCount(p) && |b| == NumCount(q)
    ensures NumCount(p + q) == |a| + |b|
    ensures Captures(p + q, a + b) == Captures(p, a) + Captures(q, b)
    decreases |p|
  {
    NumCountAppend(p, q);
    if p == [] {
      assert p + q == q && a + b == b;
    } else {
      var pq := p + q;
      assert pq[0] == p[0] && pq[1..] == p[1..] + q;
      NumCountAppend(p[1..], q);
      match p[0]
      case Lit(c) =>
        CapturesAppend(p[1..], q, a, b);
        assert Captures(pq, a + b) == Captures(p[1..] + q, a + b);
      case Num(capture) =>
        CapturesAppend(p[1..], q, a[1..], b);
        var ab := a + b;
        assert ab[0] == a[0] && ab[1..] == a[1..] + b;
        assert Captures(pq, ab) == (if capture then [a[0]] else []) + Captures(p[1..] + q, a[1..] + b);
    }
  }

  lemma DigitRunOfDecimal(d: string, rest: string)
    requires |d| > 0 && AllDigits(d)
    requires rest == [] || !IsDigit(rest[0])
    ensures DigitRun(d + rest) == |d|
    ensures (d + rest)[..|d|] == d && (d + rest)[|d|..] == rest
  {
    var s := d + rest;
    assert forall i :: 0 <= i < |d| ==> s[i] == d[i];
    assert |rest| > 0 ==> s[|d|] == rest[0];
  }

  /** Writing numbers into a well-formed pattern and matching the result reads the captured ones back. */
  lemma {:induction false} RenderThenMatch(pat: seq<Token>, nums: seq<nat>)
    requires WellFormed(pat)
    requires |nums| == NumCount(pat)
    ensures Match(pat, Render(pat, nums)) == Some(Captures(pat, nums))
    decreases |pat|
  {
    if pat != [] {
      assert WellFormed(pat[1..]) by {
        forall i | 0 <= i < |pat[1..]| && pat[1..][i].Num?
          ensures i + 1 == |pat[1..]| || (pat[1..][i + 1].Lit? && !IsDigit(pat[1..][i + 1].c))
        {
          assert pat[i + 1].Num?;
        }
      }
      match pat[0]
      case Lit(c) =>
        RenderThenMatch(pat[1..], nums);
        assert Render(pat, nums)[1..] == Render(pat[1..], nums);
      case Num(capture) =>
        RenderThenMatch(pat[1..], nums[1..]);
        var d := NatToDecimal(nums[0]);
        var rest := Render(pat[1..], nums[1..]);
        if pat[1..] != [] {
          assert pat[1].Lit? && !IsDigit(pat[1].c);
          assert rest[0] == pat[1].c;
        }
        DigitRunOfDecimal(d, rest);
    }
  }

  /** Two patterns that must part ways on every string: one ends where the other
      needs a character, or they need different literals, or one needs a
      non-digit literal where the other needs a digit. */
  predicate Diverge(p: seq<Token>, q: seq<Token>)
    decreases |p|
  {
    if p == [] then q != []
    else if q == [] then true
    else match (p[0], q[0])
      case (Num(_), Num(_)) => Diverge(p[1..], q[1..])
      case (Lit(a), Lit(b)) => a != b || Diverge(p[1..], q[1..])
      case (Lit(a), Num(_)) => !IsDigit(a)
      case (Num(_), Lit(b)) => !IsDigit(b)
  }

  lemma NonEmptyPatternNeedsInput(q: seq<Token>)
    requires q != []
    ensures Match(q, "").None?
  {
  }

  /** No string matches two diverging patterns. */
  lemma {:induction false} DivergingPatternsExclusive(p: seq<Token>, q: seq<Token>, s: string)
    requires Diverge(p, q)
    ensures Match(p, s).None? || Match(q, s).None?
    decreases |p|
  {
    if p == [] {
      if s == [] { NonEmptyPatternNeedsInput(q); }
    } else if q != [] {
      match (p[0], q[0])
      case (Num(_), Num(_)) =>
        var n := DigitRun(s);
        if n > 0 { DivergingPatternsExclusive(p[1..], q[1..], s[n..]); }
      case (Lit(a), Lit(b)) =>
        if a == b && |s| > 0 { DivergingPatternsExclusive(p[1..], q[1..], s[1..]); }
      case (Lit(a), Num(_)) =>
      case (Num(_), Lit(b)) =>
    }
  }

  /** `\.<c>(\d+)`: a dot, a letter and a captured number, the step from one level of a key to the next. */
  function Level(c: char): seq<Token> {
    [Lit('.'), Lit(c), Num(true)]
  }

  // The patterns of resolveLocation (taskpane.ts), each with its leading docPosition group.

  /** `/^\d+\.p(\d+)$/` */
  const ParagraphPattern: seq<Token> := [Num(false)] + Level('p')
  /** `/^\d+\.t(\d+)$/` */
  const TablePattern: seq<Token> := [Num(false)] + Level('t')
  /** `/^\d+\.t(\d+)\.r(\d+)$/` */
  const TableRowPattern: seq<Token> := TablePattern + Level('r')
  /** `/^\d+\.t(\d+)\.r(\d+)\.c(\d+)\.p(\d+)$/` */
  const TableCellPattern: seq<Token> := TableRowPattern + Level('c') + Level('p')

  // The unprefixed patterns of the row handlers, prepend and the review comparator.

  /** `/^p(\d+)$/` */
  const BareParagraphPattern: seq<Token> := [Lit('p'), Num(true)]
  /** `/^t(\d+)\.r(\d+)$/` */
  const BareRowPattern: seq<Token> := [Lit('t'), Num(true)] + Level('r')
  /** `/^t(\d+)\.r(\d+)\.after$/` */
  const BareRowAfterPattern: seq<Token> :=
    BareRowPattern + [Lit('.'), Lit('a'), Lit('f'), Lit('t'), Lit('e'), Lit('r')]
  /** The per-cell counter key `t<T>.r<row>.c<col>` of the indexer. */
  const CellCounterPattern: seq<Token> := BareRowPattern + Level('c')
  /** `/^t(\d+)\.r(\d+)\.c(\d+)\.p(\d+)$/` */
  const BareTableCellPattern: seq<Token> := CellCounterPattern + Level('p')

  /** The one capture of `/^(\d+)\./`, or 0 when it does not match (`getDocPosition` of executeWordAction). */
  function LeadingDocPosition(loc: string): (d: nat)
    ensures d != 0 ==> 0 < DigitRun(loc) < |loc| && loc[DigitRun(loc)] == '.'
  {
    var n := DigitRun(loc);
    assert AllDigits(loc[..n]);
    if 0 < n < |loc| && loc[n] == '.' then DigitsValue(loc[..n]) else 0
  }

  /** `.<c><n>`: one level of a key, the rendering of `Level(c)`. */
  function LevelKey(c: char, n: nat): string {
    ['.', c] + NatToDecimal(n)
  }

  /** The key `${docPosition}.p${n}` of the paragraph at flat index `n`. */
  function ParagraphKey(docPos: nat, n: nat): string {
    NatToDecimal(docPos) + LevelKey('p', n)
  }

  /** The counter key `t${t}.r${row}.c${col}` of a cell of table number `t`. */
  function CellCounterKey(t: nat, row: nat, col: nat): string {
    ['t'] + NatToDecimal(t) + LevelKey('r', row) + LevelKey('c', col)
  }

  /** The key `${docPosition}.t${t}.r${row}.c${col}.p${k}` of the `k`-th paragraph of a table cell. */
  function TableCellKey(docPos: nat, t: nat, row: nat, col: nat, k: nat): string {
    NatToDecimal(docPos) + LevelKey('t', t) + LevelKey('r', row) + LevelKey('c', col) + LevelKey('p', k)
  }

  lemma LevelRendered(c: char, n: nat)
    ensures NumCount(Level(c)) == 1
    ensures Render(Level(c), [n]) == LevelKey(c, n)
    ensures Captures(Level(c), [n]) == [n]
    ensures WellFormed(Level(c))
  {
    var p := Level(c);
    var last: seq<Token> := [Num(true)];
    assert p[1..] == [Lit(c)] + last && p[1..][1..] == last && last[1..] == [];
    assert NumCount(last) == 1;
    assert NumCount(p[1..]) == 1;
    var d := NatToDecimal(n);
    assert Render(last, [n]) == d + "" == d;
    assert Render(p, [n]) == ['.'] + ([c] + d);
    SeqAssoc(['.'], [c], d);
    assert [n][1..] == [];
    assert Captures(last, [n]) == [n] + [] == [n];
  }

  lemma LeadRendered(capture: bool, d: nat)
    ensures NumCount([Num(capture)]) == 1
    ensures Render([Num(capture)], [d]) == NatToDecimal(d)
    ensures Captures([Num(capture)], [d]) == if capture then [d] else []
    ensures WellFormed([Num(capture)])
  {
    var x := NatToDecimal(d);
    assert Render([Num(capture)], [d]) == x + "" == x;
    assert [d][1..] == [];
  }

  /** Appending one level to a pattern appends its rendering and its capture. */
  lemma AppendLevel(p: seq<Token>, nums: seq<nat>, c: char, n: nat)
    requires |nums| == NumCount(p)
    ensures NumCount(p + Level(c)) == |nums| + 1
    ensures Render(p + Level(c), nums + [n]) == Render(p, nums) + LevelKey(c, n)
    ensures Captures(p + Level(c), nums + [n]) == Captures(p, nums) + [n]
    ensures WellFormed(p) ==> WellFormed(p + Level(c))
  {
    LevelRendered(c, n);
    RenderAppend(p, Level(c), nums, [n]);
    CapturesAppend(p, Level(c), nums, [n]);
    var q := p + Level(c);
    if WellFormed(p) {
      forall i | 0 <= i < |q| && q[i].Num?
        ensures i + 1 == |q| || (q[i + 1].Lit? && !IsDigit(q[i + 1].c))
      {
        if i + 1 < |p| {
          assert q[i] == p[i] && q[i + 1] == p[i + 1];
        } else if i + 1 == |p| {
          assert q[i + 1] == Lit('.');
        } else {
          assert q[i] == Level(c)[i - |p|];
        }
      }
    }
  }

  /** The indexer's key for a paragraph outside tables is read back by the paragraph pattern. */
  lemma ParagraphKeyMatches(docPos: nat, n: nat)
    ensures Match(ParagraphPattern, ParagraphKey(docPos, n)) == Some([n])
  {
    LeadRendered(false, docPos);
    AppendLevel([Num(false)], [docPos], 'p', n);
    assert [docPos] + [n] == [docPos, n];
    assert Render(ParagraphPattern, [docPos, n]) == ParagraphKey(docPos, n);
    assert Captures(ParagraphPattern, [docPos, n]) == [] + [n] == [n];
    RenderThenMatch(ParagraphPattern, [docPos, n]);
  }

  /** The table-cell pattern written out with the stages of its numbers. */
  lemma TableCellPatternStages(nums: seq<nat>)
    requires |nums| == 5
    ensures NumCount(TableCellPattern) == 5 && WellFormed(TableCellPattern)
    ensures Render(TableCellPattern, nums) == TableCellKey(nums[0], nums[1], nums[2], nums[3], nums[4])
    ensures Captures(TableCellPattern, nums) == nums[1..]
  {
    assert nums[..1] + [nums[1]] == nums[..2] && nums[..2] + [nums[2]] == nums[..3];
    assert nums[..3] + [nums[3]] == nums[..4] && nums[..4] + [nums[4]] == nums;
    LeadRendered(false, nums[0]);
    assert nums[..1] == [nums[0]];
    AppendLevel([Num(false)], nums[..1], 't', nums[1]);
    AppendLevel(TablePattern, nums[..2], 'r', nums[2]);
    AppendLevel(TableRowPattern, nums[..3], 'c', nums[3]);
    AppendLevel(TableRowPattern + Level('c'), nums[..4], 'p', nums[4]);
    assert Captures(TableCellPattern, nums) == (([] + [nums[1]]) + [nums[2]]) + [nums[3]] + [nums[4]];
  }

  /** The indexer's key for a paragraph in a table cell is read back by the table-cell pattern. */
  lemma TableCellKeyMatches(docPos: nat, t: nat, row: nat, col: nat, k: nat)
    ensures Match(TableCellPattern, TableCellKey(docPos, t, row, col, k)) == Some([t, row, col, k])
  {
    var nums := [docPos, t, row, col, k];
    TableCellPatternStages(nums);
    assert nums[1..] == [t, row, col, k];
    RenderThenMatch(TableCellPattern, nums);
  }

  lemma CaptureCountLiterals(c: char, q: seq<Token>)
    ensures CaptureCount([Lit(c)] + q) == CaptureCount(q)
    ensures CaptureCount([Num(false)] + q) == CaptureCount(q)
    ensures CaptureCount([Num(true)] + q) == 1 + CaptureCount(q)
  {
    assert ([Lit(c)] + q)[1..] == q;
    assert ([Num(false)] + q)[1..] == q;
    assert ([Num(true)] + q)[1..] == q;
  }

  lemma LevelCaptureCount(c: char)
    ensures CaptureCount(Level(c)) == 1
  {
    CaptureCountLiterals(c, [Num(true)]);
    CaptureCountLiterals('.', [Lit(c), Num(true)]);
    CaptureCountLiterals(c, []);
    assert [Num(true)] == [Num(true)] + [];
  }

  /** How many numbers each pattern hands back. */
  lemma PatternCaptureCounts()
    ensures CaptureCount(ParagraphPattern) == 1
    ensures CaptureCount(TablePattern) == 1
    ensures CaptureCount(TableRowPattern) == 2
    ensures CaptureCount(TableCellPattern) == 4
    ensures CaptureCount(BareParagraphPattern) == 1
    ensures CaptureCount(BareRowPattern) == 2
    ensures CaptureCount(BareRowAfterPattern) == 2
    ensures CaptureCount(CellCounterPattern) == 3
    ensures CaptureCount(BareTableCellPattern) == 4
  {
    LevelCaptureCount('p');
    LevelCaptureCount('t');
    LevelCaptureCount('r');
    LevelCaptureCount('c');
    CaptureCountLiterals('.', Level('p'));
    CaptureCountLiterals('.', Level('t'));
    CaptureCountAppend(TablePattern, Level('r'));
    CaptureCountAppend(TableRowPattern, Level('c'));
    CaptureCountAppend(TableRowPattern + Level('c'), Level('p'));
    CaptureCountLiterals('p', [Num(true)]);
    CaptureCountLiterals('p', []);
    assert [Num(true)] == [Num(true)] + [];
    CaptureCountLiterals('t', [Num(true)]);
    assert BareParagraphPattern == [Lit('p')] + [Num(true)];
    assert [Lit('t'), Num(true)] == [Lit('t')] + [Num(true)];
    CaptureCountAppend([Lit('t'), Num(true)], Level('r'));
    var after := [Lit('.'), Lit('a'), Lit('f'), Lit('t'), Lit('e'), Lit('r')];
    assert CaptureCount(after) == 0;
    CaptureCountAppend(BareRowPattern, after);
    CaptureCountAppend(BareRowPattern, Level('c'));
    CaptureCountAppend(CellCounterPattern, Level('p'));
  }

  lemma {:induction false} DivergeAfterPrefix(pre: seq<Token>, p: seq<Token>, q: seq<Token>)
    requires Diverge(p, q)
    ensures Diverge(pre + p, pre + q)
    decreases |pre|
  {
    if pre == [] {
      assert pre + p == p && pre + q == q;
    } else {
      DivergeAfterPrefix(pre[1..], p, q);
      assert (pre + p)[0] == pre[0] == (pre + q)[0];
      assert (pre + p)[1..] == pre[1..] + p;
      assert (pre + q)[1..] == pre[1..] + q;
    }
  }

  /** The four location patterns of resolveLocation part ways on every string. */
  lemma ResolverPatternsDiverge()
    ensures Diverge(TablePattern, TableRowPattern) && Diverge(TablePattern, ParagraphPattern)
    ensures Diverge(TablePattern, TableCellPattern) && Diverge(TableRowPattern, ParagraphPattern)
    ensures Diverge(TableRowPattern, TableCellPattern) && Diverge(ParagraphPattern, TableCellPattern)
  {
    var lead := [Num(false), Lit('.')];
    assert Diverge([Lit('t'), Num(true)], [Lit('p'), Num(true)]);
    assert TablePattern == lead + [Lit('t'), Num(true)];
    assert ParagraphPattern == lead + [Lit('p'), Num(true)];
    DivergeAfterPrefix(lead, [Lit('t'), Num(true)], [Lit('p'), Num(true)]);

    var rowTail := [Lit('t'), Num(true)] + Level('r');
    var cellTail := rowTail + Level('c') + Level('p');
    assert TableRowPattern == lead + rowTail;
    assert TableCellPattern == lead + cellTail;
    assert Diverge(rowTail, [Lit('p'), Num(true)]);
    assert Diverge(cellTail, [Lit('p'), Num(true)]);
    DivergeAfterPrefix(lead, rowTail, [Lit('p'), Num(true)]);
    DivergeAfterPrefix(lead, cellTail, [Lit('p'), Num(true)]);

    assert Diverge([], Level('r'));
    assert TablePattern + [] == TablePattern;
    DivergeAfterPrefix(TablePattern, [], Level('r'));
    assert Diverge([], Level('r') + Level('c') + Level('p'));
    assert TableCellPattern == TablePattern + (Level('r') + Level('c') + Level('p'));
    DivergeAfterPrefix(TablePattern, [], Level('r') + Level('c') + Level('p'));
    assert Diverge([], Level('c') + Level('p'));
    assert TableCellPattern == TableRowPattern + (Level('c') + Level('p'));
    assert TableRowPattern + [] == TableRowPattern;
    DivergeAfterPrefix(TableRowPattern, [], Level('c') + Level('p'));
  }

  /** Diverge is symmetric, so an exclusiveness fact can be used either way round. */
  lemma {:induction false} DivergeSymmetric(p: seq<Token>, q: seq<Token>)
    requires Diverge(p, q)
    ensures Diverge(q, p)
    decreases |p|
  {
    if p != [] && q != [] {
      match (p[0], q[0])
      case (Num(_), Num(_)) => DivergeSymmetric(p[1..], q[1..]);
      case (Lit(a), Lit(b)) => if a == b { DivergeSymmetric(p[1..], q[1..]); }
      case (Lit(_), Num(_)) =>
      case (Num(_), Lit(_)) =>
    }
  }

  /** A key that starts with a decimal number and then a dot has that number as its docPosition. */
  lemma LeadingOfDecimal(d: nat, rest: string)
    requires |rest| > 0 && rest[0] == '.'
    ensures LeadingDocPosition(NatToDecimal(d) + rest) == d
  {
    var x := NatToDecimal(d);
    DigitRunOfDecimal(x, rest);
    assert (x + rest)[|x|] == rest[0];
  }

  /** Both kinds of indexer key carry their docPosition in front. */
  lemma KeyLeadingDocPosition(docPos: nat, t: nat, row: nat, col: nat, k: nat, n: nat)
    ensures LeadingDocPosition(ParagraphKey(docPos, n)) == docPos
    ensures LeadingDocPosition(TableCellKey(docPos, t, row, col, k)) == docPos
  {
    var x := NatToDecimal(docPos);
    LeadingOfDecimal(docPos, LevelKey('p', n));
    var a, b, c, e := LevelKey('t', t), LevelKey('r', row), LevelKey('c', col), LevelKey('p', k);
    assert TableCellKey(docPos, t, row, col, k) == x + (((a + b) + c) + e);
    assert (((a + b) + c) + e)[0] == a[0];
    LeadingOfDecimal(docPos, ((a + b) + c) + e);
  }

  /** `<c>(\d+)`, a letter and a captured number, renders as the letter and the decimal. */
  lemma HeadRendered(c: char, n: nat)
    requires !IsDigit(c)
    ensures NumCount([Lit(c), Num(true)]) == 1
    ensures Render([Lit(c), Num(true)], [n]) == [c] + NatToDecimal(n)
    ensures Captures([Lit(c), Num(true)], [n]) == [n]
    ensures WellFormed([Lit(c), Num(true)])
  {
    var head: seq<Token> := [Lit(c), Num(true)];
    var x := NatToDecimal(n);
    assert head[1..] == [Num(true)] && head[1..][1..] == [];
    assert NumCount(head[1..]) == 1;
    assert NumCount(head) == 1;
    assert Render(head[1..], [n]) == x + "" == x;
    assert [n][1..] == [];
    assert Captures(head[1..], [n]) == [n] + [] == [n];
  }

  /** The counter key of a cell is read back by its pattern, so distinct cells have distinct counters. */
  lemma CellCounterKeyMatches(t: nat, row: nat, col: nat)
    ensures Match(CellCounterPattern, CellCounterKey(t, row, col)) == Some([t, row, col])
  {
    HeadRendered('t', t);
    AppendLevel([Lit('t'), Num(true)], [t], 'r', row);
    assert [t] + [row] == [t, row];
    AppendLevel(BareRowPattern, [t, row], 'c', col);
    assert [t, row] + [col] == [t, row, col];
    RenderThenMatch(CellCounterPattern, [t, row, col]);
  }

  lemma CellCounterKeyInjective(t: nat, row: nat, col: nat, t': nat, row': nat, col': nat)
    requires CellCounterKey(t, row, col) == CellCounterKey(t', row', col')
    ensures t == t' && row == row' && col == col'
  {
    CellCounterKeyMatches(t, row, col);
    CellCounterKeyMatches(t', row', col');
  }

  /** The indexer builds a cell key as `${docPosition}.${cellKey}.p${k}`; that is the table-cell key. */
  lemma CellKeyFromCounterKey(docPos: nat, t: nat, row: nat, col: nat, k: nat)
    ensures NatToDecimal(docPos) + ['.'] + CellCounterKey(t, row, col) + LevelKey('p', k)
         == TableCellKey(docPos, t, row, col, k)
  {
    var x, y := NatToDecimal(docPos), NatToDecimal(t);
    var b, c, e := LevelKey('r', row), LevelKey('c', col), LevelKey('p', k);
    var dot: string := ['.'];
    var tee: string := ['t'];
    assert LevelKey('t', t) == (dot + tee) + y;
    assert CellCounterKey(t, row, col) == ((tee + y) + b) + c;
    SeqAssoc(dot, tee, y);
    SeqAssoc(dot, tee + y, b);
    SeqAssoc(dot, (tee + y) + b, c);
    SeqAssoc(x, dot, ((tee + y) + b) + c);
    assert dot + (((tee + y) + b) + c) == ((LevelKey('t', t) + b) + c);
    SeqAssoc(x, LevelKey('t', t) + b, c);
    SeqAssoc(x, LevelKey('t', t), b);
  }

  // ---------------------------------------------------------------------------
  // The other keys the handlers and the review read

  /** `p${n}` */
  function BareParagraphKey(n: nat): string {
    ['p'] + NatToDecimal(n)
  }

  /** `t${t}.r${r}` */
  function BareRowKey(t: nat, r: nat): string {
    ['t'] + NatToDecimal(t) + LevelKey('r', r)
  }

  const AfterSuffix: string := ".after"

  /** `t${t}.r${r}.after` */
  function BareRowAfterKey(t: nat, r: nat): string {
    BareRowKey(t, r) + AfterSuffix
  }

  /** `${docPosition}.t${t}` */
  function TableKey(docPos: nat, t: nat): string {
    NatToDecimal(docPos) + LevelKey('t', t)
  }

  const AfterTokens: seq<Token> := [Lit('.'), Lit('a'), Lit('f'), Lit('t'), Lit('e'), Lit('r')]

  lemma AfterRendered()
    ensures NumCount(AfterTokens) == 0 && Render(AfterTokens, []) == AfterSuffix
    ensures Captures(AfterTokens, []) == [] && WellFormed(AfterTokens)
    ensures BareRowAfterPattern == BareRowPattern + AfterTokens
  {
  }

  lemma BareParagraphKeyMatches(n: nat)
    ensures Match(BareParagraphPattern, BareParagraphKey(n)) == Some([n])
  {
    HeadRendered('p', n);
    RenderThenMatch(BareParagraphPattern, [n]);
  }

  lemma BareRowKeyMatches(t: nat, r: nat)
    ensures Match(BareRowPattern, BareRowKey(t, r)) == Some([t, r])
    ensures NumCount(BareRowPattern) == 2 && WellFormed(BareRowPattern)
    ensures Render(BareRowPattern, [t, r]) == BareRowKey(t, r) && Captures(BareRowPattern, [t, r]) == [t, r]
  {
    HeadRendered('t', t);
    AppendLevel([Lit('t'), Num(true)], [t], 'r', r);
    assert [t] + [r] == [t, r];
    RenderThenMatch(BareRowPattern, [t, r]);
  }

  lemma {:induction false} WellFormedAppend(p: seq<Token>, q: seq<Token>)
    requires WellFormed(p) && WellFormed(q)
    requires p != [] && q != [] && q[0].Lit? && !IsDigit(q[0].c)
    ensures WellFormed(p + q)
  {
    var pq := p + q;
    forall i | 0 <= i < |pq| && pq[i].Num?
      ensures i + 1 == |pq| || (pq[i + 1].Lit? && !IsDigit(pq[i + 1].c))
    {
      if i + 1 < |p| {
        assert pq[i] == p[i] && pq[i + 1] == p[i + 1];
      } else if i + 1 == |p| {
        assert pq[i + 1] == q[0];
      } else {
        assert pq[i] == q[i - |p|];
        if i + 1 < |pq| { assert pq[i + 1] == q[i + 1 - |p|]; }
      }
    }
  }

  lemma BareRowAfterKeyMatches(t: nat, r: nat)
    ensures Match(BareRowAfterPattern, BareRowAfterKey(t, r)) == Some([t, r])
  {
    BareRowKeyMatches(t, r);
    AfterRendered();
    RenderAppend(BareRowPattern, AfterTokens, [t, r], []);
    CapturesAppend(BareRowPattern, AfterTokens, [t, r], []);
    assert [t, r] + [] == [t, r];
    WellFormedAppend(BareRowPattern, AfterTokens);
    RenderThenMatch(BareRowAfterPattern, [t, r]);
  }

  lemma TableKeyMatches(docPos: nat, t: nat)
    ensures Match(TablePattern, TableKey(docPos, t)) == Some([t])
  {
    LeadRendered(false, docPos);
    AppendLevel([Num(false)], [docPos], 't', t);
    assert [docPos] + [t] == [docPos, t];
    assert Render(TablePattern, [docPos, t]) == TableKey(docPos, t);
    assert Captures(TablePattern, [docPos, t]) == [] + [t] == [t];
    RenderThenMatch(TablePattern, [docPos, t]);
  }

  /** `t${t}.r${r}.c${c}.p${k}`, the unprefixed cell form the review comparator reads. */
  function BareTableCellKey(t: nat, r: nat, c: nat, k: nat): string {
    CellCounterKey(t, r, c) + LevelKey('p', k)
  }

  lemma BareTableCellKeyMatches(t: nat, r: nat, c: nat, k: nat)
    ensures Match(BareTableCellPattern, BareTableCellKey(t, r, c, k)) == Some([t, r, c, k])
  {
    HeadRendered('t', t);
    AppendLevel([Lit('t'), Num(true)], [t], 'r', r);
    assert [t] + [r] == [t, r];
    AppendLevel(BareRowPattern, [t, r], 'c', c);
    assert [t, r] + [c] == [t, r, c];
    AppendLevel(CellCounterPattern, [t, r, c], 'p', k);
    assert [t, r, c] + [k] == [t, r, c, k];
    RenderThenMatch(BareTableCellPattern, [t, r, c, k]);
  }

  /** The bare row and bare cell forms part ways on every string. */
  lemma BareRowIsNotCell(loc: string)
    ensures Match(BareRowPattern, loc).None? || Match(BareTableCellPattern, loc).None?
  {
    assert Diverge([], Level('c') + Level('p'));
    assert BareTableCellPattern == BareRowPattern + (Level('c') + Level('p'));
    assert BareRowPattern + [] == BareRowPattern;
    DivergeAfterPrefix(BareRowPattern, [], Level('c') + Level('p'));
    DivergingPatternsExclusive(BareRowPattern, BareTableCellPattern, loc);
  }

  /** A key of the plain row form is never of the `.after` form, and back. */
  lemma BareRowFormsExclusive(loc: string)
    ensures Match(BareRowPattern, loc).None? || Match(BareRowAfterPattern, loc).None?
  {
    AfterRendered();
    assert Diverge([], AfterTokens);
    assert BareRowPattern + [] == BareRowPattern;
    DivergeAfterPrefix(BareRowPattern, [], AfterTokens);
    DivergingPatternsExclusive(BareRowPattern, BareRowAfterPattern, loc);
  }

  /** A key that starts with a docPosition is never of an unprefixed form. */
  lemma PrefixedKeysAreNotBare(loc: string)
    requires |loc| > 0 && IsDigit(loc[0])
    ensures Match(BareParagraphPattern, loc).None? && Match(BareRowPattern, loc).None?
    ensures Match(BareRowAfterPattern, loc).None? && Match(BareTableCellPattern, loc).None?
  {
  }
}
