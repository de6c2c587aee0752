/**
 Merkle inclusion proofs for transactions: a position and one sibling per level.
 */
module InclusionProof {
  import opened Bitcoin
  import opened Merkle
  import opened Wrappers

  datatype TxidInclusionProof = TxidInclusionProof(position: nat, siblings: seq<Digest>)

  /** A level with its odd last node repeated. */
  function PadEven(s: seq<Digest>): seq<Digest> {
    if |s| % 2 == 1 then Repeated(s, 1) else s
  }

  function SiblingIndex(i: nat): nat {
    if i % 2 == 0 then i + 1 else i - 1
  }

  /** The siblings met on the way up from leaf `i`. */
  function Siblings(s: seq<Digest>, i: nat): seq<Digest>
    requires i < |s|
    decreases |s|
  {
    if |s| == 1 then [] else [PadEven(s)[SiblingIndex(i)]] + Siblings(NextLevel(s), i / 2)
  }

  /** One step up: the position's low bit says on which side the sibling stands. */
  function Join(x: Digest, pos: nat, sibling: Digest): Digest {
    if pos % 2 == 0 then HashPair(x, sibling) else HashPair(sibling, x)
  }

  function Climb(x: Digest, pos: nat, siblings: seq<Digest>): Digest
    decreases |siblings|
  {
    if siblings == [] then x else Climb(Join(x, pos, siblings[0]), pos / 2, siblings[1..])
  }

  predicate Verify(proof: TxidInclusionProof, tx: Transaction, root: Digest, txCount: nat) {
    && txCount != 0
    && proof.position < txCount
    && |proof.siblings| == Depth(txCount)
    && Climb(Txid(tx), proof.position, proof.siblings) == root
  }

  // ---- Completeness and soundness --------------------------------------------

  lemma {:induction false} JoinIsParent(s: seq<Digest>, i: nat)
    requires |s| > 1 && i < |s|
    ensures SiblingIndex(i) < |PadEven(s)|
    ensures Join(s[i], i, PadEven(s)[SiblingIndex(i)]) == Parent(s, i / 2)
  {
  }

  /** Climbing from any leaf with its own siblings ends at the root, one sibling per level. */
  lemma {:induction false} GeneratedProofVerifies(s: seq<Digest>, i: nat)
    requires i < |s|
    ensures Climb(s[i], i, Siblings(s, i)) == Root(s)
    ensures |Siblings(s, i)| == Depth(|s|)
    decreases |s|
  {
    if |s| > 1 {
      DepthStep(|s|);
      JoinIsParent(s, i);
      NextLevelAt(s, i / 2);
      GeneratedProofVerifies(NextLevel(s), i / 2);
    }
  }

  /** The other child of the node above place `j`, which is its own twin at an odd end. */
  function OtherChild(level: seq<Digest>, j: nat): Digest
    requires j < |level|
  {
    if j % 2 == 1 then level[j - 1] else if j + 1 < |level| then level[j + 1] else level[j]
  }

  /** `k` levels up from place `i`, the node beside the one on the way to the root. */
  function BesideAt(s: seq<Digest>, i: nat, k: nat): Digest
    requires i < |s|
    decreases k
  {
    if k == 0 then OtherChild(s, i) else BesideAt(NextLevel(s), i / 2, k - 1)
  }

  /** The siblings are the nodes beside the way to the root, lowest first. */
  lemma {:induction false} SiblingAt(s: seq<Digest>, i: nat, k: nat)
    requires i < |s| && k < |Siblings(s, i)|
    ensures Siblings(s, i)[k] == BesideAt(s, i, k)
    decreases k
  {
    if k == 0 {
      FirstSibling(s, i);
    } else {
      NextSibling(s, i, k);
      SiblingAt(NextLevel(s), i / 2, k - 1);
    }
  }

  lemma {:induction false} FirstSibling(s: seq<Digest>, i: nat)
    requires i < |s| && |s| > 1
    ensures Siblings(s, i)[0] == OtherChild(s, i)
  {
    assert |s| % 2 == 1 ==> PadEven(s) == s + [s[|s| - 1]];
  }

  lemma {:induction false} NextSibling(s: seq<Digest>, i: nat, k: nat)
    requires i < |s| && 0 < k < |Siblings(s, i)|
    ensures |s| > 1 && i / 2 < |NextLevel(s)| && k - 1 < |Siblings(NextLevel(s), i / 2)|
    ensures Siblings(s, i)[k] == Siblings(NextLevel(s), i / 2)[k - 1]
  {
  }

  /** A path of full depth that reaches the root started at the slot it names. */
  lemma {:induction false} PathEndsAtSlot(s: seq<Digest>, x: Digest, pos: nat, siblings: seq<Digest>)
    requires s != [] && |siblings| == Depth(|s|)
    requires Climb(x, pos, siblings) == Root(s)
    ensures x == s[Slot(|s|, Depth(|s|), pos)]
    decreases |s|
  {
    if |s| > 1 {
      DepthStep(|s|);
      PathEndsAtSlot(NextLevel(s), Join(x, pos, siblings[0]), pos / 2, siblings[1..]);
      JoinedAtSlot(s, x, pos, siblings[0], Depth(|NextLevel(s)|));
    }
  }

  lemma {:induction false} JoinedAtSlot(s: seq<Digest>, x: Digest, pos: nat, sibling: Digest, d: nat)
    requires |s| > 1 && Join(x, pos, sibling) == NextLevel(s)[Slot(|NextLevel(s)|, d, pos / 2)]
    ensures x == s[Slot(|s|, d + 1, pos)]
  {
    var j := pos / 2;
    SlotStep(s, d, j);
    assert pos == 2 * j || pos == 2 * j + 1;
  }

  /** An accepted path is for the leaf at its position and is the generated one. */
  lemma {:induction false} AcceptedPathIsGenerated(s: seq<Digest>, x: Digest, pos: nat, siblings: seq<Digest>)
    requires pos < |s| && |siblings| == Depth(|s|)
    requires Climb(x, pos, siblings) == Root(s)
    ensures x == s[pos] && siblings == Siblings(s, pos)
    decreases |s|
  {
    if |s| > 1 {
      DepthStep(|s|);
      var level, k := NextLevel(s), pos / 2;
      var sibling, rest := siblings[0], siblings[1..];
      AcceptedPathIsGenerated(level, Join(x, pos, sibling), k, rest);
      assert Join(x, pos, sibling) == level[k];
      assert level[k] == Parent(s, k) by { NextLevelAt(s, k); }
      JoinIsParent(s, pos);
      assert siblings == [sibling] + rest;
    }
  }

  /** Of the paths of full depth, exactly a leaf's own siblings lead from it to the root. */
  lemma {:induction false} OwnPathIff(s: seq<Digest>, x: Digest, pos: nat, siblings: seq<Digest>)
    requires pos < |s|
    ensures |siblings| == Depth(|s|) && Climb(x, pos, siblings) == Root(s) <==>
            x == s[pos] && siblings == Siblings(s, pos)
  {
    GeneratedProofVerifies(s, pos);
    if |siblings| == Depth(|s|) && Climb(x, pos, siblings) == Root(s) {
      AcceptedPathIsGenerated(s, x, pos, siblings);
    }
  }

  /** A path taken from another list of the same length leads to the root exactly when the lists are equal. */
  lemma {:induction false} OtherPathIff(s: seq<Digest>, other: seq<Digest>, pos: nat, x: Digest, path: seq<Digest>)
    requires pos < |s| == |other| && x == other[pos] && path == Siblings(other, pos)
    ensures |path| == Depth(|s|) && (Climb(x, pos, path) == Root(s) <==> other == s)
  {
    GeneratedProofVerifies(other, pos);
    if Root(other) == Root(s) {
      RootInjectiveAtLength(other, s);
    }
  }

  /** `Verify` accepts exactly the proof `Generate` makes for that transaction id. */
  lemma {:induction false} VerifyIffGenerated(txs: seq<Transaction>, tx: Transaction, proof: TxidInclusionProof)
    requires txs != []
    ensures Verify(proof, tx, Root(Txids(txs)), |txs|) <==>
            && proof.position < |txs|
            && Txid(tx) == Txid(txs[proof.position])
            && proof.siblings == Siblings(Txids(txs), proof.position)
  {
    if proof.position < |txs| {
      OwnPathIff(Txids(txs), Txid(tx), proof.position, proof.siblings);
    }
  }

  /**
   What the bound on the position buys: at a position past the last leaf a
   full-depth path still reaches the root, from the repeated leaf in that slot.
   */
  lemma {:induction false} SlotPathReachesRoot(s: seq<Digest>, pos: nat) returns (siblings: seq<Digest>)
    requires s != []
    ensures |siblings| == Depth(|s|)
    ensures Climb(s[Slot(|s|, Depth(|s|), pos)], pos, siblings) == Root(s)
    decreases |s|
  {
    if |s| == 1 {
      siblings := [];
    } else {
      DepthStep(|s|);
      var j, d := pos / 2, Depth(|NextLevel(s)|);
      var rest := SlotPathReachesRoot(NextLevel(s), j);
      SlotStep(s, d, j);
      var l, r := s[Slot(|s|, d + 1, 2 * j)], s[Slot(|s|, d + 1, 2 * j + 1)];
      siblings := [if pos % 2 == 0 then r else l] + rest;
      assert siblings[1..] == rest;
      JoinsPair(l, r, pos);
      assert pos == if pos % 2 == 0 then 2 * j else 2 * j + 1;
    }
  }

  lemma {:induction false} JoinsPair(l: Digest, r: Digest, pos: nat)
    ensures Join(if pos % 2 == 0 then l else r, pos, if pos % 2 == 0 then r else l) == Pair(l, r)
  {
  }

  /** `siblings` is a path of full depth from `x` at `pos` to the root of `s`. */
  ghost predicate FullPath(s: seq<Digest>, x: Digest, pos: nat, siblings: seq<Digest>)
    requires s != []
  {
    |siblings| == Depth(|s|) && Climb(x, pos, siblings) == Root(s)
  }

  /** At any position whatever, a full path to the root exists exactly from the leaf in that slot. */
  lemma {:induction false} FullPathIff(s: seq<Digest>, x: Digest, pos: nat)
    requires s != []
    ensures (exists siblings :: FullPath(s, x, pos, siblings)) <==> x == s[Slot(|s|, Depth(|s|), pos)]
  {
    if siblings :| FullPath(s, x, pos, siblings) {
      PathEndsAtSlot(s, x, pos, siblings);
    }
    var siblings := SlotPathReachesRoot(s, pos);
    assert x == s[Slot(|s|, Depth(|s|), pos)] ==> FullPath(s, x, pos, siblings);
  }

  /** The left edge of a path from position 0. */
  lemma {:induction false} ClimbFromZero(x: Digest, siblings: seq<Digest>)
    ensures LeftSpine(Climb(x, 0, siblings)) == LeftSpine(x) + |siblings|
    ensures Leftmost(Climb(x, 0, siblings), |siblings|) == x
    decreases |siblings|
  {
    if siblings != [] {
      ClimbFromZero(HashPair(x, siblings[0]), siblings[1..]);
      LeftmostStep(Climb(x, 0, siblings), |siblings| - 1);
    }
  }

  // ---- The algorithms -------------------------------------------------------------

  lemma {:induction false} PaddedLevel(level: seq<Digest>, padded: seq<Digest>)
    requires level != []
    requires padded == if |level| % 2 != 0 then level + [level[|level| - 1]] else level
    ensures padded == PadEven(level) && NextLevel(padded) == NextLevel(level)
  {
    if |level| % 2 == 1 {
      assert padded == Repeated(level, 1);
      SameLevel(padded, level);
    }
  }

  lemma {:induction false} SiblingsStep(level: seq<Digest>, i: nat, collected: seq<Digest>)
    requires |level| > 1 && i < |level| && SiblingIndex(i) < |PadEven(level)|
    ensures (collected + [PadEven(level)[SiblingIndex(i)]]) + Siblings(NextLevel(level), i / 2)
         == collected + Siblings(level, i)
  {
  }

  /** Walks the levels upward, collecting the sibling at each. */
  method Generate(txs: seq<Transaction>, idx: nat) returns (proof: Option<TxidInclusionProof>)
    ensures proof == if idx < |txs| then Some(TxidInclusionProof(idx, Siblings(Txids(txs), idx))) else None
  {
    if idx >= |txs| {
      return None;
    }
    var currLevel := Txids(txs);
    var currIndex := idx;
    var siblings: seq<Digest> := [];
    ghost var path := Siblings(Txids(txs), idx);
    while |currLevel| > 1
      invariant 0 <= currIndex < |currLevel|
      invariant siblings + Siblings(currLevel, currIndex) == path
      decreases |currLevel|
    {
      ghost var level := currLevel;
      if |currLevel| % 2 != 0 {
        currLevel := currLevel + [currLevel[|currLevel| - 1]];
      }
      PaddedLevel(level, currLevel);
      JoinIsParent(level, currIndex);
      var siblingIndex := if currIndex % 2 == 0 then currIndex + 1 else currIndex - 1;
      SiblingsStep(level, currIndex, siblings);
      siblings := siblings + [currLevel[siblingIndex]];
      currLevel := NextLevel(currLevel);
      currIndex := currIndex / 2;
    }
    assert siblings + Siblings(currLevel, currIndex) == siblings;
    return Some(TxidInclusionProof(idx, siblings));
  }

  /** Hashes upward along the stored siblings. */
  method ComputeRoot(proof: TxidInclusionProof, tx: Transaction) returns (root: Digest)
    ensures root == Climb(Txid(tx), proof.position, proof.siblings)
  {
    root := Txid(tx);
    var pos := proof.position;
    for i := 0 to |proof.siblings|
      invariant Climb(root, pos, proof.siblings[i..]) == Climb(Txid(tx), proof.position, proof.siblings)
    {
      var sibling := proof.siblings[i];
      assert proof.siblings[i..][1..] == proof.siblings[i + 1..];
      root := if pos % 2 == 0 then HashPair(root, sibling) else HashPair(sibling, root);
      pos := pos / 2;
    }
  }
}
