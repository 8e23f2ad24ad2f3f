/** `Array.prototype.sort(comparator)`: a stable sort (section 23.1.3.30 of ECMA-262 requires
    stability), modelled as an insertion sort, which is stable by construction. The order it
    produces is the comparator's whenever the comparator is consistent, that is a total preorder:
    both sorts in the source pass one. */
module Sorting {

  /** A comparator in the ECMAScript sense: negative when the first argument goes first. */
  type Comparator<!T> = (T, T) -> int

  /** `cmp` is consistent: swapping the arguments swaps the sign, and "may come first" is transitive. */
  ghost predicate TotalPreorder<T(!new)>(cmp: Comparator<T>) {
    (forall a, b :: cmp(a, b) < 0 <==> cmp(b, a) > 0)
    && (forall a, b, c :: cmp(a, b) <= 0 && cmp(b, c) <= 0 ==> cmp(a, c) <= 0)
  }

  /** No element is strictly after a later one. */
  predicate Ordered<T>(s: seq<T>, cmp: Comparator<T>) {
    forall i, j :: 0 <= i < j < |s| ==> cmp(s[i], s[j]) <= 0
  }

  /** The elements of `s` that the comparator ties with `e`, in their order in `s`. */
  function TiedWith<T>(s: seq<T>, cmp: Comparator<T>, e: T): (r: seq<T>)
    ensures |r| <= |s|
  {
    if s == [] then []
    else TiedWith(s[..|s| - 1], cmp, e) + (if cmp(e, s[|s| - 1]) == 0 then [s[|s| - 1]] else [])
  }

  /** `x` placed into `s` after the last element that may come before it. */
  function Insert<T>(s: seq<T>, x: T, cmp: Comparator<T>): (r: seq<T>)
    ensures |r| == |s| + 1
  {
    if s == [] then [x]
    else if cmp(s[|s| - 1], x) <= 0 then s + [x]
    else Insert(s[..|s| - 1], x, cmp) + [s[|s| - 1]]
  }

  /** The sorted array `s.sort(cmp)`. */
  function Sort<T>(s: seq<T>, cmp: Comparator<T>): (r: seq<T>)
    ensures |r| == |s|
  {
    if s == [] then [] else Insert(Sort(s[..|s| - 1], cmp), s[|s| - 1], cmp)
  }

  /** The comparator `(a, b) => key(b) - key(a)`: descending by an integer key. */
  function ByKeyDescending<T>(key: T -> int): Comparator<T> {
    (a: T, b: T) => key(b) - key(a)
  }

  /** A descending-key comparator is consistent, ties exactly the elements of equal key, and
      orders a sequence exactly when the keys never rise. */
  lemma ByKeyDescendingFacts<T(!new)>(key: T -> int)
    ensures TotalPreorder(ByKeyDescending(key))
    ensures forall a, b :: ByKeyDescending(key)(a, b) == 0 <==> key(a) == key(b)
    ensures forall s: seq<T> :: Ordered(s, ByKeyDescending(key)) <==>
      forall i, j :: 0 <= i < j < |s| ==> key(s[i]) >= key(s[j])
  {
  }

  lemma {:induction false} InsertMultiset<T>(s: seq<T>, x: T, cmp: Comparator<T>)
    ensures multiset(Insert(s, x, cmp)) == multiset(s) + multiset{x}
    decreases |s|
  {
    if s != [] && cmp(s[|s| - 1], x) > 0 {
      var init := s[..|s| - 1];
      InsertMultiset(init, x, cmp);
      assert s == init + [s[|s| - 1]];
    }
  }

  lemma {:induction false} InsertOrdered<T(!new)>(s: seq<T>, x: T, cmp: Comparator<T>)
    requires TotalPreorder(cmp) && Ordered(s, cmp)
    ensures Ordered(Insert(s, x, cmp), cmp)
    decreases |s|
  {
    if s != [] {
      var init, last := s[..|s| - 1], s[|s| - 1];
      if cmp(last, x) <= 0 {
        forall i | 0 <= i < |s| ensures cmp(s[i], x) <= 0 {
          if i < |s| - 1 {
            assert cmp(s[i], last) <= 0;
          }
        }
        SnocOrdered(s, x, cmp);
      } else {
        var front := Insert(init, x, cmp);
        OrderedPrefix(s, cmp);
        InsertOrdered(init, x, cmp);
        InsertBelowLast(s, x, cmp);
        SnocOrdered(front, last, cmp);
        assert Insert(s, x, cmp) == front + [last];
      }
    }
  }

  /** No element of `s` is strictly after `x`. */
  predicate AllAtMost<T>(s: seq<T>, x: T, cmp: Comparator<T>) {
    forall i :: 0 <= i < |s| ==> cmp(s[i], x) <= 0
  }

  /** Appending an element that no earlier one is strictly after keeps a sequence ordered. */
  lemma SnocOrdered<T>(s: seq<T>, x: T, cmp: Comparator<T>)
    requires Ordered(s, cmp) && AllAtMost(s, x, cmp)
    ensures Ordered(s + [x], cmp)
  {
    var r := s + [x];
    forall i, j | 0 <= i < j < |r| ensures cmp(r[i], r[j]) <= 0 {
      if j == |s| {
        assert r[i] == s[i] && r[j] == x;
      } else {
        assert r[i] == s[i] && r[j] == s[j];
      }
    }
  }

  lemma OrderedPrefix<T>(s: seq<T>, cmp: Comparator<T>)
    requires s != [] && Ordered(s, cmp)
    ensures Ordered(s[..|s| - 1], cmp)
  {
    var init := s[..|s| - 1];
    forall i, j | 0 <= i < j < |init| ensures cmp(init[i], init[j]) <= 0 {
      assert init[i] == s[i] && init[j] == s[j];
    }
  }

  /** When `x` goes before the last element, everything it is placed among comes before that element. */
  lemma InsertBelowLast<T(!new)>(s: seq<T>, x: T, cmp: Comparator<T>)
    requires TotalPreorder(cmp) && s != [] && Ordered(s, cmp) && cmp(s[|s| - 1], x) > 0
    ensures AllAtMost(Insert(s[..|s| - 1], x, cmp), s[|s| - 1], cmp)
  {
    var init, last := s[..|s| - 1], s[|s| - 1];
    var front := Insert(init, x, cmp);
    InsertMultiset(init, x, cmp);
    forall i | 0 <= i < |front| ensures cmp(front[i], last) <= 0 {
      assert front[i] in multiset(front);
      if front[i] != x {
        assert front[i] in multiset(init);
        var m :| 0 <= m < |init| && init[m] == front[i];
        assert s[m] == init[m];
      }
    }
  }

  /** Two elements tied with a third are not strictly ordered. */
  lemma TiesAreOrdered<T(!new)>(cmp: Comparator<T>, e: T, a: T, b: T)
    requires TotalPreorder(cmp)
    ensures cmp(e, a) == 0 && cmp(e, b) == 0 ==> cmp(a, b) <= 0
  {
    if cmp(e, a) == 0 && cmp(e, b) == 0 {
      assert cmp(a, e) <= 0 && cmp(e, b) <= 0;
    }
  }

  /** Adding an element at the end adds it to the tied elements exactly when it is tied. */
  lemma TiedWithSnoc<T>(s: seq<T>, x: T, cmp: Comparator<T>, e: T)
    ensures TiedWith(s + [x], cmp, e) == TiedWith(s, cmp, e) + (if cmp(e, x) == 0 then [x] else [])
  {
    var r := s + [x];
    assert r[..|r| - 1] == s && r[|r| - 1] == x;
  }

  /** The step of the insertion past an element `last` that must come after `x`: when `x` and
      `last` are not both tied with `e`, their order among the tied elements is kept. */
  lemma InsertPastLast<T>(init: seq<T>, last: T, x: T, cmp: Comparator<T>, e: T)
    requires cmp(last, x) > 0
    requires !(cmp(e, last) == 0 && cmp(e, x) == 0)
    requires TiedWith(Insert(init, x, cmp), cmp, e) == TiedWith(init, cmp, e) + (if cmp(e, x) == 0 then [x] else [])
    ensures TiedWith(Insert(init + [last], x, cmp), cmp, e)
      == TiedWith(init + [last], cmp, e) + (if cmp(e, x) == 0 then [x] else [])
  {
    var s := init + [last];
    assert s[..|s| - 1] == init && s[|s| - 1] == last;
    TiedWithSnoc(init, last, cmp, e);
    TiedWithSnoc(Insert(init, x, cmp), last, cmp, e);
  }

  /** Inserting `x` puts it after every element tied with it that is already there. */
  lemma {:induction false} InsertTiedWith<T(!new)>(s: seq<T>, x: T, cmp: Comparator<T>, e: T)
    requires TotalPreorder(cmp)
    ensures TiedWith(Insert(s, x, cmp), cmp, e) == TiedWith(s, cmp, e) + (if cmp(e, x) == 0 then [x] else [])
    decreases |s|
  {
    if s == [] {
      TiedWithSnoc([], x, cmp, e);
      assert [] + [x] == [x];
    } else if cmp(s[|s| - 1], x) <= 0 {
      TiedWithSnoc(s, x, cmp, e);
    } else {
      var init, last := s[..|s| - 1], s[|s| - 1];
      assert s == init + [last];
      InsertTiedWith(init, x, cmp, e);
      TiesAreOrdered(cmp, e, last, x);
      InsertPastLast(init, last, x, cmp, e);
    }
  }

  /** The sorted array holds exactly the elements of the original. */
  lemma {:induction false} SortPermutes<T>(s: seq<T>, cmp: Comparator<T>)
    ensures multiset(Sort(s, cmp)) == multiset(s)
    decreases |s|
  {
    if s != [] {
      var init := s[..|s| - 1];
      SortPermutes(init, cmp);
      InsertMultiset(Sort(init, cmp), s[|s| - 1], cmp);
      assert s == init + [s[|s| - 1]];
    }
  }

  /** With a consistent comparator the sorted array is in the comparator's order. */
  lemma {:induction false} SortOrders<T(!new)>(s: seq<T>, cmp: Comparator<T>)
    requires TotalPreorder(cmp)
    ensures Ordered(Sort(s, cmp), cmp)
    decreases |s|
  {
    if s != [] {
      SortOrders(s[..|s| - 1], cmp);
      InsertOrdered(Sort(s[..|s| - 1], cmp), s[|s| - 1], cmp);
    }
  }

  /** The sort is stable: elements the comparator ties keep their original order. */
  lemma {:induction false} SortStable<T(!new)>(s: seq<T>, cmp: Comparator<T>, e: T)
    requires TotalPreorder(cmp)
    ensures TiedWith(Sort(s, cmp), cmp, e) == TiedWith(s, cmp, e)
    decreases |s|
  {
    if s != [] {
      SortStable(s[..|s| - 1], cmp, e);
      InsertTiedWith(Sort(s[..|s| - 1], cmp), s[|s| - 1], cmp, e);
    }
  }
}
