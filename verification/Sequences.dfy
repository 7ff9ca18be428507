/** Filtering and stable sorting of sequences, as the iterator pipelines of the source use them. */
module Sequences {

  datatype Option<+T> = None | Some(value: T)

  function Select<T>(s: seq<T>, p: T -> bool): seq<T> {
    if s == [] then []
    else if p(s[0]) then [s[0]] + Select(s[1..], p)
    else Select(s[1..], p)
  }

  lemma {:induction false} SelectMembers<T>(s: seq<T>, p: T -> bool)
    ensures forall x :: x in Select(s, p) <==> x in s && p(x)
  {
    if s != [] {
      SelectMembers(s[1..], p);
      assert forall x :: x in s <==> x == s[0] || x in s[1..];
    }
  }

  lemma {:induction false} SelectConcat<T>(a: seq<T>, b: seq<T>, p: T -> bool)
    ensures Select(a + b, p) == Select(a, p) + Select(b, p)
  {
    if a == [] {
      assert a + b == b;
    } else {
      assert (a + b)[1..] == a[1..] + b;
      SelectConcat(a[1..], b, p);
    }
  }

  lemma {:induction false} SelectNone<T>(s: seq<T>, p: T -> bool)
    requires forall x <- s :: !p(x)
    ensures Select(s, p) == []
  {
    if s != [] {
      assert s[0] in s;
      assert forall x <- s[1..] :: x in s;
      SelectNone(s[1..], p);
    }
  }

  // ----- Stable sorting -----

  /** Inserts `x` after every element that it does not come before. */
  function InsertBy<T>(x: T, sorted: seq<T>, less: (T, T) -> bool): seq<T> {
    if sorted == [] || less(x, sorted[0]) then [x] + sorted
    else [sorted[0]] + InsertBy(x, sorted[1..], less)
  }

  function SortBy<T>(s: seq<T>, less: (T, T) -> bool): seq<T> {
    if s == [] then [] else InsertBy(s[|s| - 1], SortBy(s[..|s| - 1], less), less)
  }

  ghost predicate Sorted<T>(s: seq<T>, less: (T, T) -> bool) {
    forall i, j :: 0 <= i < j < |s| ==> !less(s[j], s[i])
  }

  ghost predicate StrictWeakOrder<T(!new)>(less: (T, T) -> bool) {
    && (forall x, y :: less(x, y) ==> !less(y, x))
    && (forall x, y, z :: !less(y, x) && !less(z, y) ==> !less(z, x))
  }

  /** Neither comes before the other. */
  function TiesWith<T>(x: T, less: (T, T) -> bool): T -> bool {
    y => !less(x, y) && !less(y, x)
  }

  lemma SortedPrepend<T>(x: T, sorted: seq<T>, less: (T, T) -> bool)
    requires Sorted(sorted, less) && forall y <- sorted :: !less(y, x)
    ensures Sorted([x] + sorted, less)
  {
    var whole := [x] + sorted;
    forall i, j | 0 <= i < j < |whole| ensures !less(whole[j], whole[i]) {
      assert whole[j] == sorted[j - 1];
      assert i > 0 ==> whole[i] == sorted[i - 1];
    }
  }

  lemma {:induction false} InsertByKeeps<T>(x: T, sorted: seq<T>, less: (T, T) -> bool)
    ensures multiset(InsertBy(x, sorted, less)) == multiset(sorted) + multiset{x}
    ensures forall y <- InsertBy(x, sorted, less) :: y in sorted || y == x
  {
    if sorted != [] && !less(x, sorted[0]) {
      InsertByKeeps(x, sorted[1..], less);
      assert sorted == [sorted[0]] + sorted[1..];
    }
  }

  lemma {:induction false} InsertBySorts<T(!new)>(x: T, sorted: seq<T>, less: (T, T) -> bool)
    requires StrictWeakOrder(less) && Sorted(sorted, less)
    ensures Sorted(InsertBy(x, sorted, less), less)
  {
    if sorted == [] {
    } else if less(x, sorted[0]) {
      assert forall y <- sorted :: !less(y, sorted[0]);
      SortedPrepend(x, sorted, less);
    } else {
      var rest := sorted[1..];
      InsertBySorts(x, rest, less);
      InsertByKeeps(x, rest, less);
      assert forall y <- rest :: !less(y, sorted[0]);
      SortedPrepend(sorted[0], InsertBy(x, rest, less), less);
    }
  }

  lemma {:induction false} InsertByIsStable<T(!new)>(x: T, sorted: seq<T>, less: (T, T) -> bool, z: T)
    requires StrictWeakOrder(less) && Sorted(sorted, less)
    ensures Select(InsertBy(x, sorted, less), TiesWith(z, less)) == Select(sorted + [x], TiesWith(z, less))
  {
    var tie := TiesWith(z, less);
    SelectConcat(sorted, [x], tie);
    if sorted == [] {
      assert [x] + sorted == sorted + [x];
    } else if less(x, sorted[0]) {
      SelectConcat([x], sorted, tie);
      assert forall y <- sorted :: !less(y, sorted[0]);
      assert forall y <- sorted :: less(x, y);
      if tie(x) {
        SelectNone(sorted, tie);
      }
    } else {
      InsertByIsStable(x, sorted[1..], less, z);
      SelectConcat(sorted[1..], [x], tie);
    }
  }

  /** Sorting gives a sorted permutation. */
  lemma {:induction false} SortBySorts<T(!new)>(s: seq<T>, less: (T, T) -> bool)
    requires StrictWeakOrder(less)
    ensures Sorted(SortBy(s, less), less)
    ensures multiset(SortBy(s, less)) == multiset(s)
    ensures forall x :: x in SortBy(s, less) <==> x in s
  {
    if s != [] {
      hide InsertBy, Sorted, StrictWeakOrder;
      var last, rest := s[|s| - 1], s[..|s| - 1];
      SortBySorts(rest, less);
      InsertBySorts(last, SortBy(rest, less), less);
      InsertByKeeps(last, SortBy(rest, less), less);
      assert s == rest + [last];
    }
    SameMembers(SortBy(s, less), s);
  }

  /** Elements that tie keep their order. */
  lemma {:induction false} SortByIsStable<T(!new)>(s: seq<T>, less: (T, T) -> bool, z: T)
    requires StrictWeakOrder(less)
    ensures Select(SortBy(s, less), TiesWith(z, less)) == Select(s, TiesWith(z, less))
  {
    if s != [] {
      var last, rest := s[|s| - 1], s[..|s| - 1];
      SortBySorts(rest, less);
      SortByIsStable(rest, less, z);
      InsertByIsStable(last, SortBy(rest, less), less, z);
      SelectConcat(SortBy(rest, less), [last], TiesWith(z, less));
      SelectConcat(rest, [last], TiesWith(z, less));
      assert s == rest + [last];
    }
  }

  lemma SameTiesSameMembers<T(!new)>(a: seq<T>, b: seq<T>, less: (T, T) -> bool)
    requires StrictWeakOrder(less)
    requires forall x :: Select(a, TiesWith(x, less)) == Select(b, TiesWith(x, less))
    ensures forall x :: x in a <==> x in b
    ensures a == [] <==> b == []
  {
    forall x ensures x in a <==> x in b {
      var tie := TiesWith(x, less);
      SelectMembers(a, tie);
      SelectMembers(b, tie);
      assert tie(x);
      assert Select(a, tie) == Select(b, tie);
    }
    assert a != [] ==> a[0] in b;
    assert b != [] ==> b[0] in a;
  }

  /** Two sorted arrangements that agree on the order of ties are the same sequence, so a stable sort has one result,
      whatever its algorithm. */
  lemma {:induction false} StableSortIsUnique<T(!new)>(a: seq<T>, b: seq<T>, less: (T, T) -> bool)
    requires StrictWeakOrder(less) && Sorted(a, less) && Sorted(b, less)
    requires forall x :: Select(a, TiesWith(x, less)) == Select(b, TiesWith(x, less))
    ensures a == b
  {
    SameTiesSameMembers(a, b, less);
    if a != [] {
      var tie := TiesWith(a[0], less);
      assert a[0] in b && b[0] in a;
      var k :| 0 <= k < |b| && b[k] == a[0];
      var j :| 0 <= j < |a| && a[j] == b[0];
      assert tie(a[0]) && Select(a, tie)[0] == a[0];
      assert tie(b[0]) && Select(b, tie)[0] == b[0];
      forall x ensures Select(a[1..], TiesWith(x, less)) == Select(b[1..], TiesWith(x, less)) {
        var whole := Select(a, TiesWith(x, less));
        assert whole == Select(b, TiesWith(x, less));
        assert TiesWith(x, less)(a[0]) ==> whole[1..] == Select(a[1..], TiesWith(x, less));
        assert TiesWith(x, less)(a[0]) ==> whole[1..] == Select(b[1..], TiesWith(x, less));
      }
      StableSortIsUnique(a[1..], b[1..], less);
    }
  }

  lemma SameMembers<T>(a: seq<T>, b: seq<T>)
    requires multiset(a) == multiset(b)
    ensures forall x :: x in a <==> x in b
  {
    forall x ensures x in a <==> x in b {
      assert x in a <==> x in multiset(a);
      assert x in b <==> x in multiset(b);
    }
  }

  // ----- Sorting by a number -----

  function KeyLess<T>(key: T -> nat): (T, T) -> bool {
    (x, y) => key(x) < key(y)
  }

  ghost predicate SortedByKey<T>(s: seq<T>, key: T -> nat) {
    forall i, j :: 0 <= i < j < |s| ==> key(s[i]) <= key(s[j])
  }

  function SortByKey<T>(s: seq<T>, key: T -> nat): seq<T> {
    SortBy(s, KeyLess(key))
  }

  lemma SortByKeyFacts<T(!new)>(s: seq<T>, key: T -> nat)
    ensures SortedByKey(SortByKey(s, key), key)
    ensures multiset(SortByKey(s, key)) == multiset(s)
    ensures forall x :: x in SortByKey(s, key) <==> x in s
  {
    SortBySorts(s, KeyLess(key));
    assert forall x, y :: KeyLess(key)(x, y) <==> key(x) < key(y);
  }
}
