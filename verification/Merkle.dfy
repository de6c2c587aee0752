/**
 Bitcoin's Merkle tree, which repeats the last node of every odd level.

 `Root` is the specification; `CalculateRoot` and `MerkleRootR` are the in-place
 algorithm. The main results say how far a root determines the list below it.
 */
module Merkle {
  import opened Bitcoin
  import opened Sorting
  import opened Wrappers

  function Min(a: nat, b: nat): nat {
    if a <= b then a else b
  }

  function HashPair(a: Digest, b: Digest): Digest {
    Pair(a, b)
  }

  /** Node `i` of the level above `s`: an odd last node is paired with itself. */
  function Parent(s: seq<Digest>, i: nat): Digest
    requires 2 * i < |s|
  {
    HashPair(s[2 * i], s[Min(2 * i + 1, |s| - 1)])
  }

  function Parents(s: seq<Digest>, k: nat): (r: seq<Digest>)
    requires 2 * k <= |s| + 1
    ensures |r| == k
  {
    if k == 0 then [] else Parents(s, k - 1) + [Parent(s, k - 1)]
  }

  /** The level above `s`. */
  function NextLevel(s: seq<Digest>): (r: seq<Digest>)
    ensures |r| == (|s| + 1) / 2
  {
    Parents(s, (|s| + 1) / 2)
  }

  lemma {:induction false} ParentsAt(s: seq<Digest>, k: nat, i: nat)
    requires 2 * k <= |s| + 1 && i < k
    ensures Parents(s, k)[i] == Parent(s, i)
  {
    if i < k - 1 {
      ParentsAt(s, k - 1, i);
    }
  }

  lemma {:induction false} NextLevelAt(s: seq<Digest>, i: nat)
    requires 2 * i < |s|
    ensures NextLevel(s)[i] == Parent(s, i)
  {
    ParentsAt(s, (|s| + 1) / 2, i);
  }

  function Root(s: seq<Digest>): Digest
    requires s != []
    decreases |s|
  {
    if |s| == 1 then s[0] else Root(NextLevel(s))
  }

  function BitLength(m: nat): nat {
    if m == 0 then 0 else 1 + BitLength(m / 2)
  }

  /** Number of levels above the leaves. */
  function Depth(n: nat): nat {
    if n <= 1 then 0 else BitLength(n - 1)
  }

  function Pow2(d: nat): nat {
    if d == 0 then 1 else 2 * Pow2(d - 1)
  }

  lemma {:induction false} DepthStep(n: nat)
    requires n > 1
    ensures Depth(n) == 1 + Depth((n + 1) / 2)
  {
    assert (n + 1) / 2 - 1 == (n - 1) / 2;
  }

  lemma {:induction false} DepthZero(n: nat)
    requires n >= 1
    ensures Depth(n) == 0 <==> n == 1
  {
  }

  /** The depth is the least `d` whose full row has room for `n` leaves. */
  lemma {:induction false} DepthIsLeast(n: nat, d: nat)
    requires n >= 1
    ensures Pow2(Depth(n)) >= n
    ensures d < Depth(n) ==> Pow2(d) < n
  {
    if n > 1 {
      DepthStep(n);
      DepthIsLeast((n + 1) / 2, if d == 0 then 0 else d - 1);
    }
  }

  // ---- The padded row ------------------------------------------------------

  /**
   The leaf that fills slot `i` of the full row of `Pow2(d)` slots: at every odd
   level the missing last node is a copy of its left neighbour.
   */
  function Slot(n: nat, d: nat, i: nat): (k: nat)
    requires n >= 1
    ensures k < n
    decreases d
  {
    if d == 0 then 0
    else Min(2 * Slot((n + 1) / 2, d - 1, i / 2) + i % 2, n - 1)
  }

  /** Slots below `n` hold their own leaf. */
  lemma {:induction false} SlotOfRealLeaf(n: nat, d: nat, i: nat)
    requires i < n <= Pow2(d)
    ensures Slot(n, d, i) == i
    decreases d
  {
    if d > 0 {
      SlotOfRealLeaf((n + 1) / 2, d - 1, i / 2);
    }
  }

  ghost predicate SamePaddedRow(s: seq<Digest>, t: seq<Digest>, d: nat)
    requires s != [] && t != []
  {
    forall i: nat :: i < Pow2(d) ==> s[Slot(|s|, d, i)] == t[Slot(|t|, d, i)]
  }

  /** At equal depth a root is exactly as informative as the padded row. */
  lemma {:induction false} RootIffPaddedRow(s: seq<Digest>, t: seq<Digest>)
    requires s != [] && t != [] && Depth(|s|) == Depth(|t|)
    ensures Root(s) == Root(t) <==> SamePaddedRow(s, t, Depth(|s|))
    decreases |s|
  {
    DepthZero(|s|);
    DepthZero(|t|);
    if |s| == 1 {
      assert SamePaddedRow(s, t, 0) <==> s[Slot(1, 0, 0)] == t[Slot(1, 0, 0)];
    } else {
      DepthStep(|s|);
      DepthStep(|t|);
      RootIffPaddedRow(NextLevel(s), NextLevel(t));
      PaddedRowStep(s, t, Depth(|NextLevel(s)|));
    }
  }

  lemma {:induction false} PaddedRowStep(s: seq<Digest>, t: seq<Digest>, d: nat)
    requires |s| > 1 && |t| > 1
    ensures SamePaddedRow(s, t, d + 1) <==> SamePaddedRow(NextLevel(s), NextLevel(t), d)
  {
    if SamePaddedRow(NextLevel(s), NextLevel(t), d) {
      PaddedRowDown(s, t, d);
    }
    if SamePaddedRow(s, t, d + 1) {
      PaddedRowUp(s, t, d);
    }
  }

  lemma {:induction false} PaddedRowDown(s: seq<Digest>, t: seq<Digest>, d: nat)
    requires |s| > 1 && |t| > 1
    requires SamePaddedRow(NextLevel(s), NextLevel(t), d)
    ensures SamePaddedRow(s, t, d + 1)
  {
    var e := d + 1;
    forall i: nat | i < Pow2(e) ensures s[Slot(|s|, e, i)] == t[Slot(|t|, e, i)] {
      SlotDown(s, t, d, i);
    }
  }

  lemma {:induction false} SlotDown(s: seq<Digest>, t: seq<Digest>, d: nat, i: nat)
    requires |s| > 1 && |t| > 1 && i < Pow2(d + 1)
    requires SamePaddedRow(NextLevel(s), NextLevel(t), d)
    ensures s[Slot(|s|, d + 1, i)] == t[Slot(|t|, d + 1, i)]
  {
    var j := i / 2;
    assert i == 2 * j || i == 2 * j + 1;
    assert NextLevel(s)[Slot(|NextLevel(s)|, d, j)] == NextLevel(t)[Slot(|NextLevel(t)|, d, j)];
    SlotStep(s, d, j);
    SlotStep(t, d, j);
  }

  lemma {:induction false} PaddedRowUp(s: seq<Digest>, t: seq<Digest>, d: nat)
    requires |s| > 1 && |t| > 1
    requires SamePaddedRow(s, t, d + 1)
    ensures SamePaddedRow(NextLevel(s), NextLevel(t), d)
  {
    var s', t', e := NextLevel(s), NextLevel(t), d + 1;
    forall j: nat | j < Pow2(d) ensures s'[Slot(|s'|, d, j)] == t'[Slot(|t'|, d, j)] {
      SlotStep(s, d, j);
      SlotStep(t, d, j);
      var l, r := 2 * j, 2 * j + 1;
      assert s[Slot(|s|, e, l)] == t[Slot(|t|, e, l)];
      assert s[Slot(|s|, e, r)] == t[Slot(|t|, e, r)];
    }
  }

  /** The node over slots `2 * j` and `2 * j + 1` hashes what they hold. */
  lemma {:induction false} SlotStep(s: seq<Digest>, d: nat, j: nat)
    requires |s| > 1
    ensures NextLevel(s)[Slot(|NextLevel(s)|, d, j)]
         == Pair(s[Slot(|s|, d + 1, 2 * j)], s[Slot(|s|, d + 1, 2 * j + 1)])
  {
    var k := Slot(|NextLevel(s)|, d, j);
    assert (2 * j) / 2 == j && (2 * j + 1) / 2 == j;
    NextLevelAt(s, k);
  }

  // ---- What a root determines ----------------------------------------------

  /** How far the left edge of a digest descends through pairs. */
  function LeftSpine(x: Digest): nat {
    if x.Pair? then 1 + LeftSpine(x.left) else 0
  }

  function Leftmost(x: Digest, d: nat): Digest {
    if d == 0 || !x.Pair? then x else Leftmost(x.left, d - 1)
  }

  /** If the first leaf is no inner node, the root shows the depth and that leaf. */
  lemma {:induction false} RootShowsDepth(s: seq<Digest>)
    requires s != []
    ensures LeftSpine(Root(s)) == LeftSpine(s[0]) + Depth(|s|)
    ensures Leftmost(Root(s), Depth(|s|)) == s[0]
    decreases |s|
  {
    if |s| > 1 {
      DepthStep(|s|);
      RootShowsDepth(NextLevel(s));
      NextLevelAt(s, 0);
      LeftmostStep(Root(NextLevel(s)), Depth(|s|) - 1);
    }
  }

  lemma {:induction false} LeftmostStep(x: Digest, d: nat)
    ensures Leftmost(x, d).Pair? ==> Leftmost(x, d + 1) == Leftmost(x, d).left
  {
    if d > 0 && x.Pair? {
      LeftmostStep(x.left, d - 1);
    }
  }

  /** Two duplicate-free lists of one depth with one root are one list. */
  lemma {:induction false} RootInjectiveAtDepth(s: seq<Digest>, t: seq<Digest>)
    requires s != [] && t != []
    requires Depth(|s|) == Depth(|t|) && Root(s) == Root(t)
    requires !HasDuplicates(s) && !HasDuplicates(t)
    ensures s == t
  {
    var d := Depth(|s|);
    RootIffPaddedRow(s, t);
    DepthIsLeast(|s|, 0);
    DepthIsLeast(|t|, 0);
    if |s| < |t| {
      LongerRepeats(s, t, d);
    } else if |t| < |s| {
      LongerRepeats(t, s, d);
    }
    forall i | 0 <= i < |s| ensures s[i] == t[i] {
      SlotOfRealLeaf(|s|, d, i);
      SlotOfRealLeaf(|t|, d, i);
      assert s[Slot(|s|, d, i)] == t[Slot(|t|, d, i)];
    }
  }

  /** A longer list with the same padded row repeats a leaf. */
  lemma {:induction false} LongerRepeats(s: seq<Digest>, t: seq<Digest>, d: nat)
    requires s != [] && |s| < |t| <= Pow2(d)
    requires SamePaddedRow(s, t, d)
    ensures HasDuplicates(t)
  {
    var n := |s|;
    var k := Slot(n, d, n);
    SlotOfRealLeaf(|t|, d, n);
    SlotOfRealLeaf(|t|, d, k);
    SlotOfRealLeaf(n, d, k);
    assert s[Slot(n, d, n)] == t[Slot(|t|, d, n)];
    assert s[Slot(n, d, k)] == t[Slot(|t|, d, k)];
    assert t[k] == t[n];
  }

  /** Equal lengths leave no room: one root, one list, repetitions or not. */
  lemma {:induction false} RootInjectiveAtLength(s: seq<Digest>, t: seq<Digest>)
    requires s != [] && |s| == |t| && Root(s) == Root(t)
    ensures s == t
  {
    var d := Depth(|s|);
    RootIffPaddedRow(s, t);
    DepthIsLeast(|s|, 0);
    forall i | 0 <= i < |s| ensures s[i] == t[i] {
      SlotOfRealLeaf(|s|, d, i);
      assert s[Slot(|s|, d, i)] == t[Slot(|t|, d, i)];
    }
  }

  /**
   Exactly how far a root determines a duplicate-free list: two such lists under
   one root are equal if and only if their trees are equally deep, and if and only
   if their first leaves look equally deep from the left.
   */
  lemma {:induction false} RootDeterminesIff(s: seq<Digest>, t: seq<Digest>)
    requires s != [] && t != [] && Root(s) == Root(t)
    requires !HasDuplicates(s) && !HasDuplicates(t)
    ensures s == t <==> Depth(|s|) == Depth(|t|)
    ensures s == t <==> LeftSpine(s[0]) == LeftSpine(t[0])
  {
    RootShowsDepth(s);
    RootShowsDepth(t);
    if Depth(|s|) == Depth(|t|) {
      RootInjectiveAtDepth(s, t);
    }
  }

  /** So the root identifies the list when neither starts with an inner node. */
  lemma {:induction false} RootInjective(s: seq<Digest>, t: seq<Digest>)
    requires s != [] && t != [] && Root(s) == Root(t)
    requires !s[0].Pair? && !t[0].Pair?
    requires !HasDuplicates(s) && !HasDuplicates(t)
    ensures s == t
  {
    RootDeterminesIff(s, t);
  }

  /** Otherwise a one-leaf list can pose as any longer one. */
  lemma {:induction false} InnerNodePosesAsLeaf(s: seq<Digest>)
    requires |s| > 1
    ensures Root(s).Pair? && !HasDuplicates([Root(s)])
    ensures Root([Root(s)]) == Root(s) && [Root(s)] != s
  {
    RootShowsDepth(s);
    DepthStep(|s|);
  }

  // ---- Duplicates -----------------------------------------------------------

  function LevelAt(s: seq<Digest>, l: nat): seq<Digest> {
    if l == 0 then s else NextLevel(LevelAt(s, l - 1))
  }

  /** Equal nodes at any level mean equal leaves, so scanning the leaves is enough. */
  lemma {:induction false} LeafScanCoversLevels(s: seq<Digest>, l: nat)
    requires HasDuplicates(LevelAt(s, l))
    ensures HasDuplicates(s)
  {
    if l > 0 {
      var below := LevelAt(s, l - 1);
      var i, j :| 0 <= i < j < |LevelAt(s, l)| && LevelAt(s, l)[i] == LevelAt(s, l)[j];
      NextLevelAt(below, i);
      NextLevelAt(below, j);
      assert below[2 * i] == below[2 * j];
      LeafScanCoversLevels(s, l - 1);
    }
  }

  /** The width of the subtree under the last node of the lowest odd level. */
  function MutationWidth(n: nat): (w: Option<nat>)
    ensures w.Some? ==> 1 <= w.value && 3 * w.value <= n
  {
    if n <= 1 then None
    else if n % 2 == 1 then Some(1)
    else match MutationWidth(n / 2)
      case None => None
      case Some(w) => Some(2 * w)
  }

  /** Such a level exists unless the count is a power of two. */
  lemma {:induction false} MutationWidthIff(n: nat)
    requires n >= 1
    ensures MutationWidth(n).None? <==> n == Pow2(Depth(n))
  {
    if n > 1 {
      DepthStep(n);
      if n % 2 == 0 {
        MutationWidthIff(n / 2);
      }
    }
  }

  /** The list a body becomes when its last `w` entries are repeated. */
  function Repeated<T>(s: seq<T>, w: nat): seq<T>
    requires w <= |s|
  {
    s + s[|s| - w..]
  }

  /** Repeating that subtree changes the list but not its root ... */
  lemma {:induction false} MutationKeepsRoot(s: seq<Digest>, w: nat)
    requires MutationWidth(|s|) == Some(w)
    ensures Root(Repeated(s, w)) == Root(s)
    decreases |s|
  {
    if |s| % 2 == 1 {
      SameLevel(Repeated(s, w), s);
    } else {
      var v := MutationWidth(|s| / 2).value;
      calc {
        Root(Repeated(s, w));
        Root(NextLevel(Repeated(s, w)));
        { RepeatedLevel(s, v); }
        Root(Repeated(NextLevel(s), v));
        { MutationKeepsRoot(NextLevel(s), v); }
        Root(NextLevel(s));
        Root(s);
      }
    }
  }

  /** ... and not its depth. */
  lemma {:induction false} MutationKeepsDepth(n: nat, w: nat)
    requires MutationWidth(n) == Some(w)
    ensures Depth(n + w) == Depth(n)
  {
    DepthStep(n);
    DepthStep(n + w);
    if n % 2 == 0 {
      var v := MutationWidth(n / 2).value;
      assert (n + 1) / 2 == n / 2 && (n + w + 1) / 2 == n / 2 + v;
      MutationKeepsDepth(n / 2, v);
    }
  }

  lemma {:induction false} RepeatedHasDuplicates<T>(s: seq<T>, w: nat)
    requires 1 <= w <= |s|
    ensures HasDuplicates(Repeated(s, w))
  {
    assert Repeated(s, w)[|s| - w] == Repeated(s, w)[|s|];
  }

  lemma {:induction false} SameLevel(t: seq<Digest>, s: seq<Digest>)
    requires |s| % 2 == 1 && t == Repeated(s, 1)
    ensures NextLevel(t) == NextLevel(s)
  {
    forall i | 0 <= i < |NextLevel(s)| ensures NextLevel(t)[i] == NextLevel(s)[i] {
      NextLevelAt(t, i);
      NextLevelAt(s, i);
    }
  }

  lemma {:induction false} RepeatedLevel(s: seq<Digest>, v: nat)
    requires |s| % 2 == 0 && 2 * v <= |s|
    ensures NextLevel(Repeated(s, 2 * v)) == Repeated(NextLevel(s), v)
  {
    var t, u := Repeated(s, 2 * v), NextLevel(s);
    forall i | 0 <= i < |u| + v ensures NextLevel(t)[i] == Repeated(u, v)[i] {
      var k := if i < |u| then i else i - v;
      assert NextLevel(t)[i] == Parent(t, i) by { NextLevelAt(t, i); }
      assert u[k] == Parent(s, k) by { NextLevelAt(s, k); }
      RepeatedParent(s, v, i);
    }
  }

  lemma {:induction false} RepeatedParent(s: seq<Digest>, v: nat, i: nat)
    requires |s| % 2 == 0 && 2 * v <= |s| && 2 * i < |s| + 2 * v
    ensures Parent(Repeated(s, 2 * v), i) == Parent(s, if 2 * i < |s| then i else i - v)
  {
  }

  // ---- The algorithm ---------------------------------------------------------

  lemma {:induction false} LevelFromParents(s: seq<Digest>, r: seq<Digest>)
    requires |r| == (|s| + 1) / 2
    requires forall k :: 0 <= k < |r| ==> r[k] == Parent(s, k)
    ensures r == NextLevel(s)
  {
    forall k | 0 <= k < |r| ensures r[k] == NextLevel(s)[k] {
      NextLevelAt(s, k);
    }
  }

  /** Overwrites the first half of the slice with the next level, then recurses on it. */
  method MerkleRootR(hashes: array<Digest>, len: nat) returns (root: Digest)
    requires 1 <= len <= hashes.Length
    modifies hashes
    ensures root == Root(old(hashes[..len]))
    decreases len
  {
    if len == 1 {
      return hashes[0];
    }
    ghost var level := hashes[..len];
    for idx := 0 to (len + 1) / 2
      invariant forall k :: 0 <= k < idx ==> hashes[k] == Parent(level, k)
      invariant forall k :: idx <= k < len ==> hashes[k] == level[k]
    {
      var idx1 := 2 * idx;
      var idx2 := Min(idx1 + 1, len - 1);
      hashes[idx] := HashPair(hashes[idx1], hashes[idx2]);
    }
    var halfLen := len / 2 + len % 2;
    LevelFromParents(level, hashes[..halfLen]);
    root := MerkleRootR(hashes, halfLen);
  }

  /** Hashes the first level while copying, then finishes in place. */
  method CalculateRoot(hashes: seq<Digest>) returns (root: Option<Digest>)
    ensures root == if hashes == [] then None else Some(Root(hashes))
  {
    if |hashes| == 0 {
      return None;
    }
    if |hashes| == 1 {
      return Some(hashes[0]);
    }
    var alloc: array<Digest> := new Digest[(|hashes| + 1) / 2](_ => Zero);
    var next, len := 0, 0;
    while next < |hashes|
      invariant 0 <= len <= alloc.Length
      invariant next == Min(2 * len, |hashes|)
      invariant forall k :: 0 <= k < len ==> alloc[k] == Parent(hashes, k)
    {
      var hash1 := hashes[next];
      var hash2 := if next + 1 < |hashes| then hashes[next + 1] else hash1;
      alloc[len] := HashPair(hash1, hash2);
      next := Min(next + 2, |hashes|);
      len := len + 1;
    }
    LevelFromParents(hashes, alloc[..len]);
    var r := MerkleRootR(alloc, len);
    return Some(r);
  }
}
