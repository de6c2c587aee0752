/**
 The sorted collections: a vector kept sorted that may repeat elements, and a flat
 table of entries kept in strict key order. Element and key orders are given by
 the number a value stands for.
 */
module Tables {
  import opened Wrappers
  import opened Sorting

  datatype TableError = Unsorted | Duplicates

  // ---- Sorted vectors ---------------------------------------------------------------------

  /** `m` is a sorted merge of the first `i` of `a` and the first `j` of `b`, and at most what is left of either. */
  ghost predicate VecMerged<T>(rank: T -> int, a: seq<T>, i: nat, b: seq<T>, j: nat, m: seq<T>) {
    && i <= |a| && j <= |b| && Sorted(rank, m)
    && (forall x, y :: 0 <= x < |m| && i <= y < |a| ==> rank(m[x]) <= rank(a[y]))
    && (forall x, y :: 0 <= x < |m| && j <= y < |b| ==> rank(m[x]) <= rank(b[y]))
    && multiset(m) == multiset(a[..i]) + multiset(b[..j])
  }

  lemma {:induction false} VecTakeLeft<T>(rank: T -> int, a: seq<T>, i: nat, b: seq<T>, j: nat, m: seq<T>)
    requires Sorted(rank, a) && Sorted(rank, b) && VecMerged(rank, a, i, b, j, m)
    requires i < |a| && (j < |b| ==> rank(a[i]) <= rank(b[j]))
    ensures VecMerged(rank, a, i + 1, b, j, m + [a[i]])
  {
    assert a[..i + 1] == a[..i] + [a[i]];
    assert j < |b| ==> forall y :: j <= y < |b| ==> rank(b[j]) <= rank(b[y]);
  }

  lemma {:induction false} VecTakeRight<T>(rank: T -> int, a: seq<T>, i: nat, b: seq<T>, j: nat, m: seq<T>)
    requires Sorted(rank, a) && Sorted(rank, b) && VecMerged(rank, a, i, b, j, m)
    requires j < |b| && (i < |a| ==> rank(b[j]) <= rank(a[i]))
    ensures VecMerged(rank, a, i, b, j + 1, m + [b[j]])
  {
    assert b[..j + 1] == b[..j] + [b[j]];
    assert i < |a| ==> forall y :: i <= y < |a| ==> rank(a[i]) <= rank(a[y]);
  }

  lemma {:induction false} VecTakeRest<T>(rank: T -> int, a: seq<T>, i: nat, b: seq<T>, j: nat, m: seq<T>)
    requires Sorted(rank, a) && Sorted(rank, b) && VecMerged(rank, a, i, b, j, m)
    requires i == |a| || j == |b|
    ensures Sorted(rank, m + a[i..] + b[j..])
    ensures multiset(m + a[i..] + b[j..]) == multiset(a) + multiset(b)
  {
    if i == |a| {
      assert m + a[i..] + b[j..] == m + b[j..] && a[..i] == a;
      SortedConcat(rank, m, b, j);
      RestCounts(m, multiset(a), b, j);
    } else {
      assert m + a[i..] + b[j..] == m + a[i..] && b[..j] == b;
      SortedConcat(rank, m, a, i);
      RestCounts(m, multiset(b), a, i);
    }
  }

  lemma {:induction false} RestCounts<T>(m: seq<T>, whole: multiset<T>, s: seq<T>, k: nat)
    requires k <= |s| && multiset(m) == whole + multiset(s[..k])
    ensures multiset(m + s[k..]) == whole + multiset(s)
  {
    assert s == s[..k] + s[k..];
  }

  lemma {:induction false} SortedConcat<T>(rank: T -> int, m: seq<T>, s: seq<T>, k: nat)
    requires k <= |s| && Sorted(rank, m) && Sorted(rank, s)
    requires forall x, y :: 0 <= x < |m| && k <= y < |s| ==> rank(m[x]) <= rank(s[y])
    ensures Sorted(rank, m + s[k..])
  {
    var r := m + s[k..];
    forall i, j | 0 <= i < j < |r| ensures rank(r[i]) <= rank(r[j]) {
      assert i < |m| ==> r[i] == m[i];
      assert j < |m| ==> r[j] == m[j];
      assert i >= |m| ==> r[i] == s[k + i - |m|];
      assert j >= |m| ==> r[j] == s[k + j - |m|];
    }
  }

  class SortedVec<T(==)> {
    var inner: seq<T>

    constructor NewUnchecked(inner: seq<T>)
      ensures this.inner == inner
    {
      this.inner := inner;
    }

    /** The merge is sorted and holds every element of both, as often as they do together. */
    method Merge(rank: T -> int, other: SortedVec<T>)
      requires Sorted(rank, inner) && Sorted(rank, other.inner)
      modifies this
      ensures Sorted(rank, inner)
      ensures multiset(inner) == old(multiset(inner)) + old(multiset(other.inner))
    {
      var a, b := inner, other.inner;
      var merged: seq<T> := [];
      var i, j := 0, 0;
      while i < |a| && j < |b|
        invariant VecMerged(rank, a, i, b, j, merged)
        decreases |a| - i + |b| - j
      {
        if rank(a[i]) > rank(b[j]) {
          VecTakeRight(rank, a, i, b, j, merged);
          merged := merged + [b[j]];
          j := j + 1;
        } else {
          VecTakeLeft(rank, a, i, b, j, merged);
          merged := merged + [a[i]];
          i := i + 1;
        }
      }
      VecTakeRest(rank, a, i, b, j, merged);
      inner := merged + a[i..] + b[j..];
    }
  }

  // ---- Flat tables --------------------------------------------------------------------------

  ghost predicate Strict<T>(key: T -> int, s: seq<T>) {
    forall i, j :: 0 <= i < j < |s| ==> key(s[i]) < key(s[j])
  }

  /** The table as a map from keys to entries. */
  ghost function AsMap<T>(key: T -> int, s: seq<T>): map<int, T>
    requires Strict(key, s)
  {
    map i | 0 <= i < |s| :: key(s[i]) := s[i]
  }

  ghost predicate HasKey<T>(key: T -> int, s: seq<T>, k: int) {
    exists i :: 0 <= i < |s| && key(s[i]) == k
  }

  /** The map holds exactly the entries, each under its key. */
  ghost predicate Represents<T(!new)>(key: T -> int, s: seq<T>, m: map<int, T>) {
    && (forall e :: e in s <==> key(e) in m && m[key(e)] == e)
    && (forall k :: k in m ==> key(m[k]) == k)
  }

  lemma {:induction false} AsMapRepresents<T(!new)>(key: T -> int, s: seq<T>)
    requires Strict(key, s)
    ensures Represents(key, s, AsMap(key, s))
  {
    forall e | e in s ensures key(e) in AsMap(key, s) && AsMap(key, s)[key(e)] == e {
      var i :| 0 <= i < |s| && s[i] == e;
    }
  }

  lemma {:induction false} HasKeyIff<T(!new)>(key: T -> int, s: seq<T>, m: map<int, T>, k: int)
    requires Represents(key, s, m)
    ensures HasKey(key, s, k) <==> k in m
  {
    if HasKey(key, s, k) {
      var i :| 0 <= i < |s| && key(s[i]) == k;
      assert s[i] in s;
    }
    if k in m {
      assert m[k] in s;
      var i :| 0 <= i < |s| && s[i] == m[k];
      assert key(s[i]) == k;
    }
  }

  /** Strictly ordered tables with the same entries are equal. */
  lemma {:induction false} TableDetermined<T(!new)>(key: T -> int, s: seq<T>, t: seq<T>)
    requires Strict(key, s) && Strict(key, t) && AsMap(key, s) == AsMap(key, t)
    ensures s == t
  {
    AsMapRepresents(key, s);
    AsMapRepresents(key, t);
    SameEntries(key, s, t);
  }

  lemma {:induction false} SameEntries<T>(key: T -> int, s: seq<T>, t: seq<T>)
    requires Strict(key, s) && Strict(key, t) && forall e :: e in s <==> e in t
    ensures s == t
    decreases |s|
  {
    if s == [] || t == [] {
      NoEntries(s, t);
    } else {
      var m, n := |s| - 1, |t| - 1;
      assert s[m] in t && t[n] in s;
      assert s[m] == t[n];
      forall e ensures e in s[..m] <==> e in t[..n] {
        LastIsNew(key, s, e);
        LastIsNew(key, t, e);
      }
      SameEntries(key, s[..m], t[..n]);
      assert s == s[..m] + [s[m]] && t == t[..n] + [t[n]];
    }
  }

  lemma {:induction false} NoEntries<T>(s: seq<T>, t: seq<T>)
    requires forall e :: e in s <==> e in t
    ensures s == [] <==> t == []
  {
    assert s != [] ==> s[0] in s;
    assert t != [] ==> t[0] in t;
  }

  lemma {:induction false} LastIsNew<T>(key: T -> int, s: seq<T>, e: T)
    requires Strict(key, s) && s != []
    ensures e in s[..|s| - 1] <==> e in s && e != s[|s| - 1]
  {
    var n := |s| - 1;
    if e in s[..n] {
      var i :| 0 <= i < n && s[..n][i] == e;
      assert key(s[i]) < key(s[n]);
    }
    if e in s && e != s[n] {
      var i :| 0 <= i < |s| && s[i] == e;
      assert s[..n][i] == e;
    }
  }

  // ---- Merging, entry by entry ----------------------------------------------------------------

  /** Every key of `m` is below every key of `s` from `i` on. */
  ghost predicate Under<T>(key: T -> int, m: seq<T>, s: seq<T>, i: nat) {
    forall x, y :: 0 <= x < |m| && i <= y < |s| ==> key(m[x]) < key(s[y])
  }

  /** `m` holds the first `j` of `b`, and of the first `i` of `a` those whose key `b` has not. */
  ghost predicate Overrides<T(!new)>(key: T -> int, a: seq<T>, i: nat, b: seq<T>, j: nat, m: seq<T>)
    requires i <= |a| && j <= |b|
  {
    forall e :: e in m <==> e in b[..j] || (e in a[..i] && !HasKey(key, b, key(e)))
  }

  ghost predicate MergedSoFar<T(!new)>(key: T -> int, a: seq<T>, i: nat, b: seq<T>, j: nat, m: seq<T>) {
    && i <= |a| && j <= |b| && Strict(key, m)
    && Under(key, m, a, i) && Under(key, m, b, j) && Under(key, b[..j], a, i)
    && Overrides(key, a, i, b, j, m)
  }

  lemma {:induction false} TakeLeft<T(!new)>(key: T -> int, a: seq<T>, i: nat, b: seq<T>, j: nat, m: seq<T>)
    requires Strict(key, a) && Strict(key, b)
    requires MergedSoFar(key, a, i, b, j, m) && i < |a| && (j < |b| ==> key(a[i]) < key(b[j]))
    ensures MergedSoFar(key, a, i + 1, b, j, m + [a[i]])
  {
    assert a[..i + 1] == a[..i] + [a[i]];
    forall y | 0 <= y < |b| ensures key(b[y]) != key(a[i]) {
      assert y < j ==> b[..j][y] == b[y];
    }
    assert !HasKey(key, b, key(a[i]));
  }

  lemma {:induction false} TakeRight<T(!new)>(key: T -> int, a: seq<T>, i: nat, b: seq<T>, j: nat, m: seq<T>)
    requires Strict(key, a) && Strict(key, b)
    requires MergedSoFar(key, a, i, b, j, m) && j < |b| && (i < |a| ==> key(b[j]) < key(a[i]))
    ensures MergedSoFar(key, a, i, b, j + 1, m + [b[j]])
  {
    assert b[..j + 1] == b[..j] + [b[j]];
  }

  lemma {:induction false} TakeBoth<T(!new)>(key: T -> int, a: seq<T>, i: nat, b: seq<T>, j: nat, m: seq<T>)
    requires Strict(key, a) && Strict(key, b)
    requires MergedSoFar(key, a, i, b, j, m) && i < |a| && j < |b| && key(a[i]) == key(b[j])
    ensures MergedSoFar(key, a, i + 1, b, j + 1, m + [b[j]])
  {
    assert a[..i + 1] == a[..i] + [a[i]] && b[..j + 1] == b[..j] + [b[j]];
    assert HasKey(key, b, key(a[i]));
  }

  lemma {:induction false} StrictConcat<T>(key: T -> int, m: seq<T>, s: seq<T>)
    requires Strict(key, m) && Strict(key, s) && Under(key, m, s, 0)
    ensures Strict(key, m + s)
  {
    var r := m + s;
    forall i, j | 0 <= i < j < |r| ensures key(r[i]) < key(r[j]) {
      assert i < |m| ==> r[i] == m[i];
      assert j < |m| ==> r[j] == m[j];
      assert i >= |m| ==> r[i] == s[i - |m|];
      assert j >= |m| ==> r[j] == s[j - |m|];
    }
  }

  /** What is left of one side, once the other is exhausted, goes on the end. */
  lemma {:induction false} TakeRest<T(!new)>(key: T -> int, a: seq<T>, i: nat, b: seq<T>, j: nat, m: seq<T>)
    requires Strict(key, a) && Strict(key, b)
    requires MergedSoFar(key, a, i, b, j, m) && (i == |a| || j == |b|)
    ensures Strict(key, m + a[i..] + b[j..])
    ensures Overrides(key, a, |a|, b, |b|, m + a[i..] + b[j..])
  {
    if i == |a| {
      assert m + a[i..] + b[j..] == m + b[j..];
      StrictConcat(key, m, b[j..]);
      RightRest(key, a, b, j, m);
    } else {
      assert m + a[i..] + b[j..] == m + a[i..];
      StrictConcat(key, m, a[i..]);
      LeftRest(key, a, i, b, m);
    }
  }

  lemma {:induction false} RightRest<T(!new)>(key: T -> int, a: seq<T>, b: seq<T>, j: nat, m: seq<T>)
    requires j <= |b| && Overrides(key, a, |a|, b, j, m)
    ensures Overrides(key, a, |a|, b, |b|, m + b[j..])
  {
    assert b == b[..j] + b[j..] && b[..|b|] == b;
  }

  lemma {:induction false} LeftRest<T(!new)>(key: T -> int, a: seq<T>, i: nat, b: seq<T>, m: seq<T>)
    requires i <= |a| && Under(key, b[..|b|], a, i) && Overrides(key, a, i, b, |b|, m)
    ensures Overrides(key, a, |a|, b, |b|, m + a[i..])
  {
    assert a == a[..i] + a[i..] && a[..|a|] == a && b[..|b|] == b;
    forall e | e in a[i..] ensures !HasKey(key, b, key(e)) {
      var y :| 0 <= y < |a[i..]| && a[i..][y] == e;
      assert a[i + y] == e;
    }
  }

  /** Overriding entry by entry is overriding the maps. */
  lemma {:induction false} OverridesIsUnion<T(!new)>(key: T -> int, a: seq<T>, b: seq<T>, m: seq<T>,
      ma: map<int, T>, mb: map<int, T>, mm: map<int, T>)
    requires Represents(key, a, ma) && Represents(key, b, mb) && Represents(key, m, mm)
    requires Overrides(key, a, |a|, b, |b|, m)
    ensures mm == ma + mb
  {
    assert a[..|a|] == a && b[..|b|] == b;
    forall k ensures HasKey(key, b, k) <==> k in mb {
      HasKeyIff(key, b, mb, k);
    }
    forall k ensures k in mm <==> k in ma + mb {
      if k in ma + mb {
        assert (ma + mb)[k] in m;
      }
      if k in mm {
        assert mm[k] in m;
      }
    }
    forall k | k in ma + mb ensures mm[k] == (ma + mb)[k] {
      assert (ma + mb)[k] in m;
    }
  }

  datatype Found = At(index: nat) | Absent(index: nat)

  class FlatTable<T(==, !new)> {
    const key: T -> int
    var inner: seq<T>

    ghost predicate Valid()
      reads this
    {
      Strict(key, inner)
    }

    ghost function Contents(): map<int, T>
      requires Valid()
      reads this
    {
      AsMap(key, inner)
    }

    constructor NewUnchecked(key: T -> int, inner: seq<T>)
      ensures this.key == key && this.inner == inner
    {
      this.key, this.inner := key, inner;
    }

    /** Binary search: the entry's place, or the place it would go. */
    method FindIndex(k: int) returns (r: Found)
      requires Valid()
      ensures r.index <= |inner|
      ensures r.At? <==> HasKey(key, inner, k)
      ensures r.At? ==> r.index < |inner| && key(inner[r.index]) == k
      ensures r.Absent? ==>
        && (forall i :: 0 <= i < r.index ==> key(inner[i]) < k)
        && (forall i :: r.index <= i < |inner| ==> k < key(inner[i]))
    {
      var lo, hi := 0, |inner|;
      while lo < hi
        invariant 0 <= lo <= hi <= |inner|
        invariant forall i :: 0 <= i < lo ==> key(inner[i]) < k
        invariant forall i :: hi <= i < |inner| ==> k < key(inner[i])
      {
        var mid := (lo + hi) / 2;
        if key(inner[mid]) < k {
          lo := mid + 1;
        } else if key(inner[mid]) > k {
          hi := mid;
        } else {
          return At(mid);
        }
      }
      return Absent(lo);
    }

    /** Inserting sets the entry's key and hands back what it replaced. */
    method Insert(e: T) returns (previous: Option<T>)
      requires Valid()
      modifies this`inner
      ensures Valid()
      ensures Contents() == old(Contents())[key(e) := e]
      ensures previous == if key(e) in old(Contents()) then Some(old(Contents())[key(e)]) else None
    {
      AsMapRepresents(key, inner);
      HasKeyIff(key, inner, Contents(), key(e));
      var found := FindIndex(key(e));
      var i := found.index;
      if found.At? {
        previous := Some(inner[i]);
        ReplaceEntry(key, inner, i, e);
        inner := inner[i := e];
      } else {
        previous := None;
        InsertEntry(key, inner, i, e);
        inner := inner[..i] + [e] + inner[i..];
      }
    }

    method Remove(k: int) returns (removed: Option<T>)
      requires Valid()
      modifies this`inner
      ensures Valid()
      ensures Contents() == old(Contents()) - {k}
      ensures removed == if k in old(Contents()) then Some(old(Contents())[k]) else None
    {
      AsMapRepresents(key, inner);
      HasKeyIff(key, inner, Contents(), k);
      var found := FindIndex(k);
      if found.Absent? {
        return None;
      }
      var i := found.index;
      removed := Some(inner[i]);
      RemoveEntry(key, inner, i);
      inner := inner[..i] + inner[i + 1..];
    }

    /** Merging overrides: `other`'s entry wins where both have the key. */
    method Merge(other: FlatTable<T>)
      requires Valid() && other.Valid() && other.key == key
      modifies this`inner
      ensures Valid()
      ensures Contents() == old(Contents()) + old(other.Contents())
    {
      var a, b := inner, other.inner;
      var merged: seq<T> := [];
      var i, j := 0, 0;
      while i < |a| && j < |b|
        invariant MergedSoFar(key, a, i, b, j, merged)
        decreases |a| - i + |b| - j
      {
        if key(a[i]) < key(b[j]) {
          TakeLeft(key, a, i, b, j, merged);
          merged := merged + [a[i]];
          i := i + 1;
        } else if key(a[i]) > key(b[j]) {
          TakeRight(key, a, i, b, j, merged);
          merged := merged + [b[j]];
          j := j + 1;
        } else {
          TakeBoth(key, a, i, b, j, merged);
          merged := merged + [b[j]];
          i, j := i + 1, j + 1;
        }
      }
      TakeRest(key, a, i, b, j, merged);
      inner := merged + a[i..] + b[j..];
      AsMapRepresents(key, a);
      AsMapRepresents(key, b);
      AsMapRepresents(key, inner);
      OverridesIsUnion(key, a, b, inner, AsMap(key, a), AsMap(key, b), AsMap(key, inner));
    }
  }

  /** `t` is `s` with `e` in place of whatever had its key. */
  lemma {:induction false} EntrySet<T(!new)>(key: T -> int, s: seq<T>, ms: map<int, T>, t: seq<T>, mt: map<int, T>,
      e: T)
    requires Represents(key, s, ms) && Represents(key, t, mt)
    requires forall x :: x in t <==> x == e || (x in s && key(x) != key(e))
    ensures mt == ms[key(e) := e]
  {
    var u := ms[key(e) := e];
    forall k ensures k in mt <==> k in u {
      if k in u {
        assert u[k] in t;
      }
      if k in mt {
        assert mt[k] in t;
      }
    }
    forall k | k in u ensures mt[k] == u[k] {
      assert u[k] in t;
    }
  }

  lemma {:induction false} ReplaceEntry<T(!new)>(key: T -> int, s: seq<T>, i: nat, e: T)
    requires Strict(key, s) && i < |s| && key(s[i]) == key(e)
    ensures Strict(key, s[i := e])
    ensures AsMap(key, s[i := e]) == AsMap(key, s)[key(e) := e]
  {
    var t := s[i := e];
    forall x ensures x in t <==> x == e || (x in s && key(x) != key(e)) {
      if x in s && key(x) != key(e) {
        var y :| 0 <= y < |s| && s[y] == x;
        assert t[y] == x;
      }
      assert t[i] == e;
    }
    AsMapRepresents(key, s);
    AsMapRepresents(key, t);
    EntrySet(key, s, AsMap(key, s), t, AsMap(key, t), e);
  }

  lemma {:induction false} InsertEntry<T(!new)>(key: T -> int, s: seq<T>, i: nat, e: T)
    requires Strict(key, s) && i <= |s|
    requires forall x :: 0 <= x < i ==> key(s[x]) < key(e)
    requires forall x :: i <= x < |s| ==> key(e) < key(s[x])
    ensures Strict(key, s[..i] + [e] + s[i..])
    ensures AsMap(key, s[..i] + [e] + s[i..]) == AsMap(key, s)[key(e) := e]
  {
    assert s == s[..i] + s[i..];
    StrictConcat(key, s[..i], [e]);
    StrictConcat(key, s[..i] + [e], s[i..]);
    forall x | x in s ensures key(x) != key(e) {
      var y :| 0 <= y < |s| && s[y] == x;
    }
    var t := s[..i] + [e] + s[i..];
    AsMapRepresents(key, s);
    AsMapRepresents(key, t);
    EntrySet(key, s, AsMap(key, s), t, AsMap(key, t), e);
  }

  lemma {:induction false} RemoveEntry<T(!new)>(key: T -> int, s: seq<T>, i: nat)
    requires Strict(key, s) && i < |s|
    ensures Strict(key, s[..i] + s[i + 1..])
    ensures AsMap(key, s[..i] + s[i + 1..]) == AsMap(key, s) - {key(s[i])}
  {
    var t := s[..i] + s[i + 1..];
    assert s == s[..i] + [s[i]] + s[i + 1..];
    StrictConcat(key, s[..i], s[i + 1..]);
    forall x ensures x in t <==> x in s && key(x) != key(s[i]) {
      if x in s && key(x) != key(s[i]) {
        assert x != s[i];
      }
      if x in s[i + 1..] {
        var y :| 0 <= y < |s[i + 1..]| && s[i + 1..][y] == x;
        assert s[i + 1 + y] == x;
      }
    }
    AsMapRepresents(key, s);
    AsMapRepresents(key, t);
    EntryGone(key, s, AsMap(key, s), t, AsMap(key, t), key(s[i]));
  }

  lemma {:induction false} EntryGone<T(!new)>(key: T -> int, s: seq<T>, ms: map<int, T>, t: seq<T>, mt: map<int, T>,
      k: int)
    requires Represents(key, s, ms) && Represents(key, t, mt)
    requires forall x :: x in t <==> x in s && key(x) != k
    ensures mt == ms - {k}
  {
    var u := ms - {k};
    forall q ensures q in mt <==> q in u {
      if q in u {
        assert u[q] in t;
      }
      if q in mt {
        assert mt[q] in t;
      }
    }
    forall q | q in u ensures mt[q] == u[q] {
      assert u[q] in t;
    }
  }

  // ---- Tables from vectors --------------------------------------------------------------------

  ghost predicate KeyRepeats<T>(key: T -> int, s: seq<T>) {
    exists i, j :: 0 <= i < j < |s| && key(s[i]) == key(s[j])
  }

  /** A scan over neighbours decides: strictly ordered, ordered with a repeated key, or unordered. */
  method CheckTableVec<T>(key: T -> int, v: seq<T>) returns (r: Result<(), TableError>)
    ensures r.Ok? <==> Strict(key, v)
    ensures r == Err(Duplicates) <==> Sorted(key, v) && KeyRepeats(key, v)
    ensures r == Err(Unsorted) <==> !Sorted(key, v)
  {
    var dups := false;
    var i := 1;
    while i < |v|
      invariant 1 <= i && (v != [] ==> i <= |v|)
      invariant forall x, y :: 0 <= x < y < i && y < |v| ==> key(v[x]) <= key(v[y])
      invariant !dups ==> forall x, y :: 0 <= x < y < i && y < |v| ==> key(v[x]) < key(v[y])
      invariant dups ==> KeyRepeats(key, v)
    {
      if key(v[i - 1]) > key(v[i]) {
        return Err(Unsorted);
      } else if key(v[i - 1]) == key(v[i]) {
        dups := true;
      }
      i := i + 1;
    }
    if dups {
      return Err(Duplicates);
    } else {
      return Ok(());
    }
  }

  /** Sorting first succeeds exactly when no key repeats; the entries are the ones given. */
  method TryFromUnsorted<T(==, !new)>(key: T -> int, vec: seq<T>) returns (r: Result<FlatTable<T>, TableError>)
    ensures r.Ok? <==> !KeyRepeats(key, vec)
    ensures r.Err? ==> r.error == Duplicates
    ensures r.Ok? ==> r.value.key == key && r.value.Valid() && multiset(r.value.inner) == multiset(vec)
  {
    var sorted := Sort(key, vec);
    SortCorrect(key, vec);
    SortKeepsRepeats(key, vec);
    var i := 1;
    while i < |sorted|
      invariant 1 <= i && (sorted != [] ==> i <= |sorted|)
      invariant forall x, y :: 0 <= x < y < i && y < |sorted| ==> key(sorted[x]) < key(sorted[y])
    {
      if key(sorted[i - 1]) == key(sorted[i]) {
        return Err(Duplicates);
      }
      i := i + 1;
    }
    var table := new FlatTable.NewUnchecked(key, sorted);
    return Ok(table);
  }

  function Keys<T>(key: T -> int, s: seq<T>): (r: seq<int>)
    ensures |r| == |s| && forall i :: 0 <= i < |s| ==> r[i] == key(s[i])
  {
    if s == [] then [] else [key(s[0])] + Keys(key, s[1..])
  }

  lemma {:induction false} InsertKeys<T>(key: T -> int, x: T, s: seq<T>)
    ensures multiset(Keys(key, Insert(key, x, s))) == multiset{key(x)} + multiset(Keys(key, s))
  {
    if s != [] && key(x) > key(s[0]) {
      InsertKeys(key, x, s[1..]);
      assert Insert(key, x, s)[1..] == Insert(key, x, s[1..]);
    } else {
      assert Insert(key, x, s)[1..] == s;
    }
  }

  lemma {:induction false} SortKeys<T>(key: T -> int, s: seq<T>)
    ensures multiset(Keys(key, Sort(key, s))) == multiset(Keys(key, s))
  {
    if s != [] {
      SortKeys(key, s[1..]);
      InsertKeys(key, s[0], Sort(key, s[1..]));
    }
  }

  lemma {:induction false} RepeatsAreDuplicates<T>(key: T -> int, s: seq<T>)
    ensures KeyRepeats(key, s) <==> HasDuplicates(Keys(key, s))
  {
    var ks := Keys(key, s);
    if KeyRepeats(key, s) {
      var i, j :| 0 <= i < j < |s| && key(s[i]) == key(s[j]);
      assert ks[i] == ks[j];
    }
    if HasDuplicates(ks) {
      var i, j :| 0 <= i < j < |ks| && ks[i] == ks[j];
      assert key(s[i]) == key(s[j]);
    }
  }

  lemma {:induction false} SortKeepsRepeats<T>(key: T -> int, s: seq<T>)
    ensures KeyRepeats(key, s) <==> KeyRepeats(key, Sort(key, s))
  {
    SortKeys(key, s);
    PermutationKeepsDuplicates(Keys(key, s), Keys(key, Sort(key, s)));
    RepeatsAreDuplicates(key, s);
    RepeatsAreDuplicates(key, Sort(key, s));
  }
}
