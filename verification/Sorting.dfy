/**
 The library sort the source calls (`sort_unstable`, `sort_by`) and the facts
 its callers rely on: the result is ordered, it is a permutation, and equal
 elements end up next to each other. The order of a type is given by the number
 its values stand for; 32-byte values compare as big-endian numbers.
 */
module Sorting {

  ghost predicate Injective<T(!new)>(rank: T -> int) {
    forall x, y :: rank(x) == rank(y) ==> x == y
  }

  ghost predicate Sorted<T>(rank: T -> int, s: seq<T>) {
    forall i, j :: 0 <= i < j < |s| ==> rank(s[i]) <= rank(s[j])
  }

  predicate HasDuplicates<T(==)>(s: seq<T>) {
    exists i, j :: 0 <= i < j < |s| && s[i] == s[j]
  }

  /** What a scan over `windows(2)` sees. */
  predicate AdjacentEqual<T(==)>(s: seq<T>) {
    exists i :: 0 <= i < |s| - 1 && s[i] == s[i + 1]
  }

  function Insert<T>(rank: T -> int, x: T, s: seq<T>): seq<T> {
    if s == [] then [x]
    else if rank(x) <= rank(s[0]) then [x] + s
    else [s[0]] + Insert(rank, x, s[1..])
  }

  function Sort<T>(rank: T -> int, s: seq<T>): seq<T> {
    if s == [] then [] else Insert(rank, s[0], Sort(rank, s[1..]))
  }

  ghost predicate SortOf<T>(rank: T -> int, s: seq<T>, r: seq<T>) {
    Sorted(rank, r) && multiset(r) == multiset(s) && |r| == |s|
  }

  lemma {:induction false} InsertPermutes<T>(rank: T -> int, x: T, s: seq<T>)
    ensures multiset(Insert(rank, x, s)) == multiset([x] + s)
    ensures |Insert(rank, x, s)| == |s| + 1
  {
    if s != [] && rank(x) > rank(s[0]) {
      InsertPermutes(rank, x, s[1..]);
      assert s == [s[0]] + s[1..];
    }
  }

  ghost predicate AtLeast<T>(rank: T -> int, lo: int, s: seq<T>) {
    forall i :: 0 <= i < |s| ==> lo <= rank(s[i])
  }

  lemma {:induction false} InsertSorts<T>(rank: T -> int, x: T, s: seq<T>)
    requires Sorted(rank, s)
    ensures Sorted(rank, Insert(rank, x, s))
    ensures forall lo :: AtLeast(rank, lo, s) && lo <= rank(x) ==> AtLeast(rank, lo, Insert(rank, x, s))
  {
    if s != [] && rank(x) > rank(s[0]) {
      InsertSorts(rank, x, s[1..]);
      assert AtLeast(rank, rank(s[0]), s[1..]);
      forall lo | AtLeast(rank, lo, s) && lo <= rank(x)
        ensures AtLeast(rank, lo, Insert(rank, x, s))
      {
        assert AtLeast(rank, lo, s[1..]);
      }
    }
  }

  lemma {:induction false} SortCorrect<T>(rank: T -> int, s: seq<T>)
    ensures SortOf(rank, s, Sort(rank, s))
  {
    if s != [] {
      SortCorrect(rank, s[1..]);
      InsertPermutes(rank, s[0], Sort(rank, s[1..]));
      InsertSorts(rank, s[0], Sort(rank, s[1..]));
      assert s == [s[0]] + s[1..];
    }
  }

  lemma {:induction false} DuplicatesByMultiplicity<T>(s: seq<T>)
    ensures HasDuplicates(s) <==> exists x :: x in s && multiset(s)[x] >= 2
  {
    if s != [] {
      var rest := s[1..];
      assert s == [s[0]] + rest;
      DuplicatesByMultiplicity(rest);
      if HasDuplicates(s) {
        var i, j :| 0 <= i < j < |s| && s[i] == s[j];
        assert rest[j - 1] == s[j];
        if i > 0 {
          assert rest[i - 1] == s[i];
          assert HasDuplicates(rest);
          var x :| x in rest && multiset(rest)[x] >= 2;
          assert x in s && multiset(s)[x] >= 2;
        } else {
          assert s[0] in multiset(rest);
          assert s[0] in s && multiset(s)[s[0]] >= 2;
        }
      }
      if x :| x in s && multiset(s)[x] >= 2 {
        if x == s[0] {
          assert x in multiset(rest);
          var j :| 0 <= j < |rest| && rest[j] == x;
          assert s[0] == s[j + 1];
        } else {
          assert x in rest && multiset(rest)[x] >= 2;
          var i, j :| 0 <= i < j < |rest| && rest[i] == rest[j];
          assert s[i + 1] == s[j + 1];
        }
      }
    }
  }

  lemma {:induction false} PermutationKeepsDuplicates<T>(s: seq<T>, t: seq<T>)
    requires multiset(s) == multiset(t)
    ensures HasDuplicates(s) <==> HasDuplicates(t)
  {
    DuplicatesByMultiplicity(s);
    DuplicatesByMultiplicity(t);
    assert forall x :: x in s <==> x in multiset(s);
    assert forall x :: x in t <==> x in multiset(t);
  }

  /** Sorting first makes the neighbour scan exact. */
  lemma {:induction false} AdjacentScanExact<T(!new)>(rank: T -> int, s: seq<T>, r: seq<T>)
    requires Injective(rank) && SortOf(rank, s, r)
    ensures AdjacentEqual(r) <==> HasDuplicates(s)
  {
    PermutationKeepsDuplicates(s, r);
    if HasDuplicates(r) {
      var i, j :| 0 <= i < j < |r| && r[i] == r[j];
      var k := i + 1;
      assert rank(r[i]) <= rank(r[k]) <= rank(r[j]);
      assert r[i] == r[k];
    }
  }
}
