/** sort.SliceStable, as a function: equal keys keep their order. */
module Sorting {

  function Insert<T>(x: T, s: seq<T>, key: T -> int): seq<T> {
    if s == [] then [x]
    else if key(x) <= key(s[0]) then [x] + s
    else [s[0]] + Insert(x, s[1..], key)
  }

  function StableSort<T>(s: seq<T>, key: T -> int): seq<T> {
    if s == [] then [] else Insert(s[0], StableSort(s[1..], key), key)
  }

  ghost predicate Sorted<T>(s: seq<T>, key: T -> int) {
    forall i, j :: 0 <= i < j < |s| ==> key(s[i]) <= key(s[j])
  }

  ghost predicate Pairwise<T>(s: seq<T>, apart: (T, T) -> bool) {
    forall i, j :: 0 <= i < |s| && 0 <= j < |s| && i != j ==> apart(s[i], s[j])
  }

  lemma {:induction false} InsertHolds<T(!new)>(x: T, s: seq<T>, key: T -> int)
    ensures forall y :: y in Insert(x, s, key) <==> y == x || y in s
  {
    if s != [] && key(s[0]) < key(x) {
      InsertHolds(x, s[1..], key);
      assert s == [s[0]] + s[1..];
    }
  }

  lemma {:induction false} SortHolds<T(!new)>(s: seq<T>, key: T -> int)
    ensures forall y :: y in StableSort(s, key) <==> y in s
  {
    if s != [] {
      SortHolds(s[1..], key);
      InsertHolds(s[0], StableSort(s[1..], key), key);
      assert s == [s[0]] + s[1..];
    }
  }

  lemma {:induction false} InsertKeepsSorted<T(!new)>(x: T, s: seq<T>, key: T -> int)
    requires Sorted(s, key)
    ensures Sorted(Insert(x, s, key), key)
  {
    if s != [] && key(s[0]) < key(x) {
      InsertKeepsSorted(x, s[1..], key);
      InsertHolds(x, s[1..], key);
      forall y | y in Insert(x, s[1..], key) ensures key(s[0]) <= key(y) {
        if y != x {
          var j :| 0 <= j < |s[1..]| && s[1..][j] == y;
          assert s[1 + j] == y;
        }
      }
    }
  }

  lemma {:induction false} SortSorts<T(!new)>(s: seq<T>, key: T -> int)
    ensures Sorted(StableSort(s, key), key)
  {
    if s != [] {
      SortSorts(s[1..], key);
      InsertKeepsSorted(s[0], StableSort(s[1..], key), key);
    }
  }

  /** x is apart from everything in s, both ways round. */
  ghost predicate ApartFrom<T(!new)>(x: T, s: seq<T>, apart: (T, T) -> bool) {
    forall y :: y in s ==> apart(x, y) && apart(y, x)
  }

  lemma {:induction false} InsertKeepsPairwise<T(!new)>(x: T, s: seq<T>, key: T -> int, apart: (T, T) -> bool)
    requires Pairwise(s, apart) && ApartFrom(x, s, apart)
    ensures Pairwise(Insert(x, s, key), apart)
  {
    if s != [] && key(s[0]) < key(x) {
      var rest := s[1..];
      InsertKeepsPairwise(x, rest, key, apart);
      InsertHolds(x, rest, key);
      forall y | y in Insert(x, rest, key) ensures apart(s[0], y) && apart(y, s[0]) {
        if y != x {
          var j :| 0 <= j < |rest| && rest[j] == y;
          assert s[1 + j] == y;
        }
      }
    }
  }

  lemma {:induction false} SortKeepsPairwise<T(!new)>(s: seq<T>, key: T -> int, apart: (T, T) -> bool)
    requires Pairwise(s, apart)
    ensures Pairwise(StableSort(s, key), apart)
  {
    if s != [] {
      var rest := s[1..];
      SortKeepsPairwise(rest, key, apart);
      SortHolds(rest, key);
      forall y | y in rest ensures apart(s[0], y) && apart(y, s[0]) {
        var j :| 0 <= j < |rest| && rest[j] == y;
        assert s[1 + j] == y;
      }
      InsertKeepsPairwise(s[0], StableSort(rest, key), key, apart);
    }
  }
}
