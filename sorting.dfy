/** The stable sort Python's `sorted` and `list.sort` perform, by an ordering given as a
    "goes no later than" relation: a sort by key is the relation `key(a) <= key(b)`, and a
    sort with `reverse=True` is the relation `key(a) >= key(b)`. Both keep elements with equal
    keys in their original order. */
module Sorting {
  import opened Strings

  /** `leq` orders every pair and is transitive. */
  ghost predicate TotalPreorder<T(!new)>(leq: (T, T) -> bool) {
    && (forall a, b :: leq(a, b) || leq(b, a))
    && (forall a, b, c :: leq(a, b) && leq(b, c) ==> leq(a, c))
  }

  /** `a` and `b` have equal keys. */
  predicate Tied<T>(leq: (T, T) -> bool, a: T, b: T) {
    leq(a, b) && leq(b, a)
  }

  predicate SortedBy<T>(s: seq<T>, leq: (T, T) -> bool) {
    forall i, j :: 0 <= i < j < |s| ==> leq(s[i], s[j])
  }

  /** `x` put into the sorted `s` after every element that goes no later than it. */
  function Insert<T>(s: seq<T>, x: T, leq: (T, T) -> bool): seq<T> {
    if s == [] || leq(Last(s), x) then s + [x]
    else Insert(s[..|s| - 1], x, leq) + [Last(s)]
  }

  /** The stable sort of `s` by `leq`. */
  function SortBy<T>(s: seq<T>, leq: (T, T) -> bool): seq<T> {
    if s == [] then [] else Insert(SortBy(s[..|s| - 1], leq), Last(s), leq)
  }

  /** The elements of `s` whose key equals `k`'s, in order. */
  function Ties<T>(s: seq<T>, k: T, leq: (T, T) -> bool): seq<T> {
    if s == [] then []
    else Ties(s[..|s| - 1], k, leq) + if Tied(leq, Last(s), k) then [Last(s)] else []
  }

  lemma TiesSnoc<T>(s: seq<T>, x: T, k: T, leq: (T, T) -> bool)
    ensures Ties(s + [x], k, leq) == Ties(s, k, leq) + if Tied(leq, x, k) then [x] else []
  {
    assert (s + [x])[..|s|] == s;
  }

  lemma {:induction false} InsertPermutes<T>(s: seq<T>, x: T, leq: (T, T) -> bool)
    ensures multiset(Insert(s, x, leq)) == multiset(s) + multiset{x}
  {
    if s != [] && !leq(Last(s), x) {
      var init := s[..|s| - 1];
      InsertPermutes(init, x, leq);
      assert s == init + [Last(s)];
    }
  }

  /** Every element of `Insert(s, x)` goes no later than `z` when `x` and those of `s` do. */
  lemma {:induction false} InsertBounded<T>(s: seq<T>, x: T, z: T, leq: (T, T) -> bool)
    requires forall i :: 0 <= i < |s| ==> leq(s[i], z)
    requires leq(x, z)
    ensures forall i :: 0 <= i < |Insert(s, x, leq)| ==> leq(Insert(s, x, leq)[i], z)
  {
    if s != [] && !leq(Last(s), x) {
      InsertBounded(s[..|s| - 1], x, z, leq);
    }
  }

  lemma {:induction false} InsertSorted<T(!new)>(s: seq<T>, x: T, leq: (T, T) -> bool)
    requires TotalPreorder(leq) && SortedBy(s, leq)
    ensures SortedBy(Insert(s, x, leq), leq)
    ensures Insert(s, x, leq) != []
    ensures s != [] ==> Insert(s, x, leq)[0] == (if leq(s[0], x) then s[0] else x)
  {
    var n := |s|;
    if s == [] {
    } else if leq(Last(s), x) {
      forall i | 0 <= i < n - 1 ensures leq(s[i], x) {
        assert leq(s[i], s[n - 1]);
      }
    } else {
      var init := s[..n - 1];
      InsertSorted(init, x, leq);
      assert leq(x, Last(s));
      InsertBounded(init, x, Last(s), leq);
      if init != [] {
        assert init[0] == s[0];
        if !leq(s[0], x) {
          assert leq(s[0], s[n - 1]);
        }
      }
    }
  }

  lemma {:induction false} InsertTies<T(!new)>(s: seq<T>, x: T, k: T, leq: (T, T) -> bool)
    requires TotalPreorder(leq) && SortedBy(s, leq)
    ensures Ties(Insert(s, x, leq), k, leq) == Ties(s, k, leq) + if Tied(leq, x, k) then [x] else []
  {
    if s == [] || leq(Last(s), x) {
      TiesSnoc(s, x, k, leq);
    } else {
      var init := s[..|s| - 1];
      InsertTies(init, x, k, leq);
      TiesSnoc(Insert(init, x, leq), Last(s), k, leq);
      assert s == init + [Last(s)];
      TiesSnoc(init, Last(s), k, leq);
      assert !(Tied(leq, x, k) && Tied(leq, Last(s), k));
    }
  }

  /** The sort returns a permutation of its input. */
  lemma {:induction false} SortPermutes<T>(s: seq<T>, leq: (T, T) -> bool)
    ensures multiset(SortBy(s, leq)) == multiset(s)
  {
    if s != [] {
      var init := s[..|s| - 1];
      SortPermutes(init, leq);
      InsertPermutes(SortBy(init, leq), Last(s), leq);
      assert s == init + [Last(s)];
    }
  }

  /** The sort returns its input ordered by `leq`. */
  lemma {:induction false} SortSorted<T(!new)>(s: seq<T>, leq: (T, T) -> bool)
    requires TotalPreorder(leq)
    ensures SortedBy(SortBy(s, leq), leq)
  {
    if s != [] {
      SortSorted(s[..|s| - 1], leq);
      InsertSorted(SortBy(s[..|s| - 1], leq), Last(s), leq);
    }
  }

  /** The sort is stable: the elements with any given key keep their relative order. */
  lemma {:induction false} SortStable<T(!new)>(s: seq<T>, k: T, leq: (T, T) -> bool)
    requires TotalPreorder(leq)
    ensures Ties(SortBy(s, leq), k, leq) == Ties(s, k, leq)
  {
    if s != [] {
      var init := s[..|s| - 1];
      SortStable(init, k, leq);
      SortSorted(init, leq);
      InsertTies(SortBy(init, leq), Last(s), k, leq);
    }
  }

  /** `i` holds the first least element of `s`: it goes no later than any element, and every
      element before it goes strictly later. */
  predicate FirstLeast<T>(s: seq<T>, leq: (T, T) -> bool, i: int) {
    && 0 <= i < |s|
    && (forall j :: 0 <= j < |s| ==> leq(s[i], s[j]))
    && (forall j :: 0 <= j < i ==> !leq(s[j], s[i]))
  }

  /** Where the first least element is once one more element is appended. */
  lemma FirstLeastSnoc<T(!new)>(s: seq<T>, leq: (T, T) -> bool, i: int)
    requires TotalPreorder(leq) && |s| >= 2 && FirstLeast(s[..|s| - 1], leq, i)
    ensures leq(s[i], Last(s)) ==> FirstLeast(s, leq, i)
    ensures !leq(s[i], Last(s)) ==> FirstLeast(s, leq, |s| - 1)
  {
    var n := |s|;
    var init := s[..n - 1];
    var h := s[i];
    var x := s[n - 1];
    assert forall j :: 0 <= j < n - 1 ==> init[j] == s[j];
    assert forall j :: 0 <= j < n - 1 ==> leq(h, s[j]);
    if !leq(h, x) {
      assert leq(x, h);
      forall j | 0 <= j < n ensures leq(x, s[j]) {
        if j < n - 1 {
          assert leq(h, s[j]);
        }
      }
      forall j | 0 <= j < n - 1 ensures !leq(s[j], x) {
        assert leq(h, s[j]);
      }
    }
  }

  /** The head of a non-empty sorted list is the first least element of the input. */
  lemma {:induction false} SortHead<T(!new)>(s: seq<T>, leq: (T, T) -> bool)
    requires TotalPreorder(leq) && s != []
    ensures SortBy(s, leq) != []
    ensures exists i :: FirstLeast(s, leq, i) && SortBy(s, leq)[0] == s[i]
  {
    var n := |s|;
    var init := s[..n - 1];
    var x := s[n - 1];
    var t := SortBy(init, leq);
    SortSorted(init, leq);
    InsertSorted(t, x, leq);
    if init == [] {
      assert FirstLeast(s, leq, 0);
    } else {
      SortHead(init, leq);
      var i :| FirstLeast(init, leq, i) && t[0] == init[i];
      assert init[i] == s[i];
      FirstLeastSnoc(s, leq, i);
      if leq(s[i], x) {
        assert SortBy(s, leq)[0] == s[i];
      } else {
        assert SortBy(s, leq)[0] == s[n - 1];
      }
    }
  }
}
