/**
 The Merkle mountain range: leaves are grouped, largest first, into perfect trees
 ("mountains") whose sizes are the powers of two in the leaf count. An accumulator
 keeps only the root of each; a proof is the path inside one mountain.
 */
module Mountains {
  import opened Arithmetic
  import opened Bitcoin
  import opened Merkle
  import opened InclusionProof

  /** The size of the first mountain: the greatest power of two up to `n`. */
  function PeakSize(n: nat): (p: nat)
    requires n > 0
    ensures 0 < p <= n < 2 * p
  {
    DoubleUpTo(1, n)
  }

  /** `p` doubled as often as it stays within `n`. */
  function DoubleUpTo(p: nat, n: nat): (q: nat)
    requires 0 < p <= n
    ensures p <= q <= n < 2 * q
    decreases n - p
  {
    if 2 * p > n then p else DoubleUpTo(2 * p, n)
  }

  datatype Span = Span(start: nat, size: nat) {
    predicate Has(i: nat) {
      start <= i < start + size
    }
  }

  /** The mountain that leaf `i` belongs to among `n` leaves. */
  function MountainOf(n: nat, i: nat): (m: Span)
    requires i < n
    ensures m.Has(i) && m.start + m.size <= n
  {
    var p := PeakSize(n);
    if i < p then Span(0, p)
    else
      var m := MountainOf(n - p, i - p);
      Span(m.start + p, m.size)
  }

  /** Mountains do not overlap: every leaf of a mountain has that mountain as its own. */
  lemma {:induction false} MountainShared(n: nat, i: nat, j: nat)
    requires i < n && j < n
    ensures MountainOf(n, i).Has(j) <==> MountainOf(n, i) == MountainOf(n, j)
  {
    if MountainOf(n, i).Has(j) {
      MountainUnique(n, i, j);
    }
  }

  lemma {:induction false} MountainUnique(n: nat, i: nat, j: nat)
    requires i < n && j < n && MountainOf(n, i).Has(j)
    ensures MountainOf(n, i) == MountainOf(n, j)
  {
    var p := PeakSize(n);
    if i >= p {
      MountainShift(n, p, i);
      assert MountainOf(n - p, i - p).Has(j - p);
      MountainUnique(n - p, i - p, j - p);
      MountainShift(n, p, j);
    }
  }

  /** Past the first mountain, the rest is laid out by itself. */
  lemma {:induction false} MountainShift(n: nat, p: nat, i: nat)
    requires 0 < n && p == PeakSize(n) <= i < n
    ensures MountainOf(n, i) == Span(MountainOf(n - p, i - p).start + p, MountainOf(n - p, i - p).size)
  {
  }

  /**
   Where the mountains are, by the binary digits of the leaf count alone: a mountain
   is a perfect tree whose size is a power of two with digit 1 in `n`, and before it
   lie the larger ones, whose sizes are the digits above.
   */
  lemma {:induction false} MountainLayout(n: nat, i: nat) returns (d: nat)
    requires i < n
    ensures var m := MountainOf(n, i);
      && m.size == Pow2(d)
      && (n / m.size) % 2 == 1
      && m.start == n / (2 * m.size) * (2 * m.size)
  {
    var p := PeakSize(n);
    var e := PeakIsPower(n);
    if i < p {
      d := e;
      FirstDigit(n, p);
    } else {
      d := MountainLayout(n - p, i - p);
      MountainShift(n, p, i);
      PowerDivides(d, e);
      var size, k := Pow2(d), Pow2(e - d - 1);
      TwoWays(size, k);
      DigitKept(n - p, size, k);
      MultipleMoves(n - p, 2 * size, k);
    }
  }

  /** Only the last leaf of an odd number is a mountain by itself. */
  lemma {:induction false} SingleMountainIff(n: nat, i: nat)
    requires i < n
    ensures MountainOf(n, i).size == 1 <==> i == n - 1 && n % 2 == 1
  {
    var d := MountainLayout(n, i);
    var m := MountainOf(n, i);
    if m.size == 1 {
      assert m.start == n / 2 * 2;
    } else if i == n - 1 {
      assert n == m.start + m.size;
      EvenMountain(n / (2 * m.size), d, m);
    }
  }

  lemma {:induction false} EvenMountain(k: nat, d: nat, m: Span)
    requires m.size == Pow2(d) != 1 && m.start == k * (2 * m.size)
    ensures (m.start + m.size) % 2 == 0
  {
    var half, q := Pow2(d - 1), k * m.size;
    assert k * (2 * m.size) == 2 * q;
    assert (2 * q + 2 * half) % 2 == 0;
  }

  lemma {:induction false} PeakIsPower(n: nat) returns (d: nat)
    requires n > 0
    ensures PeakSize(n) == Pow2(d)
  {
    d := DoublingIsPower(0, n);
  }

  lemma {:induction false} DoublingIsPower(e: nat, n: nat) returns (d: nat)
    requires 0 < Pow2(e) <= n
    ensures DoubleUpTo(Pow2(e), n) == Pow2(d)
    decreases n - Pow2(e)
  {
    if 2 * Pow2(e) > n {
      d := e;
    } else {
      assert Pow2(e + 1) == 2 * Pow2(e);
      d := DoublingIsPower(e + 1, n);
    }
  }

  /** A smaller power of two divides a larger one an even number of times. */
  lemma {:induction false} PowerDivides(d: nat, e: nat)
    requires Pow2(d) < Pow2(e)
    ensures d < e && Pow2(d) > 0 && Pow2(e) == 2 * Pow2(d) * Pow2(e - d - 1)
  {
    if e == 0 {
      PowerPositive(d);
    } else if d > 0 {
      PowerDivides(d - 1, e - 1);
    }
  }

  lemma {:induction false} PowerPositive(d: nat)
    ensures Pow2(d) > 0
  {
    if d > 0 {
      PowerPositive(d - 1);
    }
  }

  lemma {:induction false} FirstDigit(n: nat, p: nat)
    requires 0 < p <= n < 2 * p
    ensures (n / p) % 2 == 1 && n / (2 * p) * (2 * p) == 0
  {
    DivModUnique(n, p, 1, n - p);
    DivModUnique(n, 2 * p, 0, n);
  }

  /** Adding an even multiple of `s` does not change the digit of `s`. */
  lemma {:induction false} DigitKept(n: nat, s: nat, k: nat)
    requires s > 0
    ensures (n + s * (2 * k)) / s % 2 == n / s % 2
  {
    AddMultiple(n, s, 2 * k);
    AddEven(n / s, k);
  }

  /** Adding a multiple of `t` moves the last multiple of `t` by it. */
  lemma {:induction false} MultipleMoves(n: nat, t: nat, k: nat)
    requires t > 0
    ensures (n + t * k) / t * t == n / t * t + t * k
  {
    AddMultiple(n, t, k);
    Distribute(n / t, k, t);
  }

  lemma {:induction false} TwoWays(s: nat, k: nat)
    ensures s * (2 * k) == 2 * s * k
  {
  }

  lemma {:induction false} AddEven(q: nat, k: nat)
    ensures (q + 2 * k) % 2 == q % 2
  {
  }

  lemma {:induction false} Distribute(a: nat, b: nat, m: nat)
    ensures (a + b) * m == a * m + m * b
  {
  }

  /** A proof: the leaf's index and the siblings inside its mountain. */
  datatype MerkleProof = MerkleProof(index: nat, cohashes: seq<Digest>)

  function SpanLeaves(s: seq<Digest>, m: Span): (r: seq<Digest>)
    requires m.start + m.size <= |s|
    ensures |r| == m.size && forall k :: 0 <= k < m.size ==> r[k] == s[m.start + k]
  {
    s[m.start..m.start + m.size]
  }

  /** The siblings of leaf `i` inside its mountain. */
  function SpanPath(s: seq<Digest>, m: Span, i: nat): seq<Digest>
    requires m.Has(i) && m.start + m.size <= |s|
  {
    Siblings(SpanLeaves(s, m), i - m.start)
  }

  /** The proof of leaf `i` read from a store that has at least `n` leaves, as of `n` leaves. */
  function ProveAt(s: seq<Digest>, n: nat, i: nat): MerkleProof
    requires i < n <= |s|
  {
    MerkleProof(i, SpanPath(s, MountainOf(n, i), i))
  }

  /** A proof has as many siblings as its mountain is high. */
  lemma {:induction false} ProofLength(s: seq<Digest>, n: nat, i: nat) returns (d: nat)
    requires i < n <= |s|
    ensures MountainOf(n, i).size == Pow2(d) && |ProveAt(s, n, i).cohashes| == d
  {
    d := MountainLayout(n, i);
    var m := MountainOf(n, i);
    GeneratedProofVerifies(SpanLeaves(s, m), i - m.start);
    DepthOfPower(d);
  }

  lemma {:induction false} DepthOfPower(d: nat)
    ensures Pow2(d) > 0 && Depth(Pow2(d)) == d
  {
    PowerPositive(d);
    DepthIsLeast(Pow2(d), d);
    if Pow2(Depth(Pow2(d))) > Pow2(d) {
      DepthIsLeast(Pow2(d), Depth(Pow2(d)) - 1);
      PowerDivides(d, Depth(Pow2(d)));
    } else {
      SamePower(d, Depth(Pow2(d)));
    }
  }

  lemma {:induction false} SamePower(d: nat, e: nat)
    requires Pow2(d) == Pow2(e)
    ensures d == e
  {
    if d > 0 && e > 0 {
      SamePower(d - 1, e - 1);
    }
  }

  predicate VerifyInSpan(acc: seq<Digest>, m: Span, i: nat, cohashes: seq<Digest>, leaf: Digest)
    requires m.Has(i) && m.start + m.size <= |acc|
  {
    |cohashes| == Depth(m.size) && Climb(leaf, i - m.start, cohashes) == Root(SpanLeaves(acc, m))
  }

  /** Climbs the path and compares with the accumulator's peak. */
  predicate VerifyLeaf(acc: seq<Digest>, proof: MerkleProof, leaf: Digest) {
    proof.index < |acc| && VerifyInSpan(acc, MountainOf(|acc|, proof.index), proof.index, proof.cohashes, leaf)
  }

  /** A proof is accepted exactly when it is the accumulator's own, for the leaf at its index. */
  lemma {:induction false} VerifyIffOwn(acc: seq<Digest>, proof: MerkleProof, leaf: Digest)
    ensures VerifyLeaf(acc, proof, leaf) <==>
      proof.index < |acc| && leaf == acc[proof.index] && proof == ProveAt(acc, |acc|, proof.index)
  {
    if proof.index < |acc| {
      SpanVerifyIff(acc, MountainOf(|acc|, proof.index), proof.index, proof.cohashes, leaf);
    }
  }

  lemma {:induction false} SpanVerifyIff(acc: seq<Digest>, m: Span, i: nat, cohashes: seq<Digest>, leaf: Digest)
    requires m.Has(i) && m.start + m.size <= |acc|
    ensures VerifyInSpan(acc, m, i, cohashes, leaf) <==> leaf == acc[i] && cohashes == SpanPath(acc, m, i)
  {
    OwnPathIff(SpanLeaves(acc, m), leaf, i - m.start, cohashes);
  }

  /** The store has the whole mountain of leaf `i` as the accumulator does. */
  ghost predicate SameMountain(s: seq<Digest>, acc: seq<Digest>, i: nat)
    requires i < |acc| <= |s|
  {
    SpanLeaves(s, MountainOf(|acc|, i)) == SpanLeaves(acc, MountainOf(|acc|, i))
  }

  /** The leaves of that mountain which are at or below `low` are the accumulator's. */
  ghost predicate MountainRight(s: seq<Digest>, acc: seq<Digest>, low: nat, i: nat) {
    i < |acc| && forall k: nat :: MountainOf(|acc|, i).Has(k) && k <= low ==> k < |s| && s[k] == acc[k]
  }

  /** With no leaf above `low`, that is the whole mountain. */
  lemma {:induction false} SameMountainIff(s: seq<Digest>, acc: seq<Digest>, low: nat, i: nat)
    requires i < |acc| <= |s| && |acc| <= low + 1
    ensures SameMountain(s, acc, i) <==> MountainRight(s, acc, low, i)
  {
    SpanEqualIff(s, acc, MountainOf(|acc|, i));
  }

  lemma {:induction false} SpanEqualIff(s: seq<Digest>, acc: seq<Digest>, m: Span)
    requires m.start + m.size <= |acc| <= |s|
    ensures SpanLeaves(s, m) == SpanLeaves(acc, m) <==> forall k: nat :: m.Has(k) ==> s[k] == acc[k]
  {
    var own, leaves := SpanLeaves(acc, m), SpanLeaves(s, m);
    if leaves == own {
      forall k: nat | m.Has(k) ensures s[k] == acc[k] {
        assert leaves[k - m.start] == own[k - m.start];
      }
    }
    if forall k: nat :: m.Has(k) ==> s[k] == acc[k] {
      forall k | 0 <= k < m.size ensures leaves[k] == own[k] {
        assert m.Has(m.start + k);
      }
    }
  }

  /** A proof read from a store verifies exactly when the store has the leaf's whole mountain right. */
  lemma {:induction false} StoredProofVerifiesIff(s: seq<Digest>, acc: seq<Digest>, i: nat)
    requires i < |acc| <= |s|
    ensures VerifyLeaf(acc, ProveAt(s, |acc|, i), s[i]) <==> SameMountain(s, acc, i)
  {
    SpanProofVerifiesIff(s, acc, MountainOf(|acc|, i), i);
  }

  lemma {:induction false} SpanProofVerifiesIff(s: seq<Digest>, acc: seq<Digest>, m: Span, i: nat)
    requires m.Has(i) && m.start + m.size <= |acc| <= |s|
    ensures VerifyInSpan(acc, m, i, SpanPath(s, m, i), s[i]) <==> SpanLeaves(s, m) == SpanLeaves(acc, m)
  {
    OtherPathIff(SpanLeaves(acc, m), SpanLeaves(s, m), i - m.start, s[i], SpanPath(s, m, i));
  }

  /** One wrong leaf spoils the proofs of its own mountain and of no other. */
  lemma {:induction false} OneWrongLeaf(acc: seq<Digest>, s: seq<Digest>, at: nat, leaf: Digest, i: nat)
    requires at < |acc| <= |s| && i < |acc| && leaf != acc[at] && s[..|acc|] == acc[at := leaf]
    ensures SameMountain(s, acc, i) <==> MountainOf(|acc|, i) != MountainOf(|acc|, at)
  {
    MountainShared(|acc|, i, at);
    SpanDiffersIff(acc, s, at, leaf, MountainOf(|acc|, i));
  }

  lemma {:induction false} SpanDiffersIff(acc: seq<Digest>, s: seq<Digest>, at: nat, leaf: Digest, m: Span)
    requires at < |acc| <= |s| && leaf != acc[at] && s[..|acc|] == acc[at := leaf]
    requires m.start + m.size <= |acc|
    ensures SpanLeaves(s, m) == SpanLeaves(acc, m) <==> !m.Has(at)
  {
    var own, leaves := SpanLeaves(acc, m), SpanLeaves(s, m);
    forall k | 0 <= k < m.size ensures leaves[k] == if m.start + k == at then leaf else own[k] {
      assert s[m.start + k] == s[..|acc|][m.start + k];
    }
    if m.Has(at) {
      assert leaves[at - m.start] != own[at - m.start];
    }
  }

  /** A store that starts with the accumulator's leaves has every mountain right. */
  lemma {:induction false} InStepSame(s: seq<Digest>, acc: seq<Digest>, i: nat)
    requires i < |acc| <= |s| && s[..|acc|] == acc
    ensures SameMountain(s, acc, i) && s[i] == acc[i]
  {
    SpanInStep(s, acc, MountainOf(|acc|, i));
    assert s[i] == s[..|acc|][i];
  }

  lemma {:induction false} SpanInStep(s: seq<Digest>, acc: seq<Digest>, m: Span)
    requires m.start + m.size <= |acc| <= |s| && s[..|acc|] == acc
    ensures SpanLeaves(s, m) == SpanLeaves(acc, m)
  {
    var own, leaves := SpanLeaves(acc, m), SpanLeaves(s, m);
    forall k | 0 <= k < m.size ensures leaves[k] == own[k] {
      assert s[m.start + k] == s[..|acc|][m.start + k];
    }
  }
}
