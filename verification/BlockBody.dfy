/**
 Block body verification: the checks that turn a header into a commitment to
 one body, and the proof that they do.
 */
module BlockBody {
  import opened Identifiers
  import opened Bitcoin
  import opened Merkle
  import opened Sorting
  import opened InclusionProof
  import opened Wrappers

  datatype L1BodyError =
    | EmptyBlock
    | NotCoinbase
    | MissingInclusionProof
    | InvalidCoinbaseWitness
    | WitnessCommitmentMismatch
    | InvalidInclusionProof
    | UncommittedWitnessData
    | MerkleRootMismatch
    | DuplicateTransaction

  const MAGIC: seq<Byte> := [0x6a, 0x24, 0xaa, 0x21, 0xa9, 0xed]

  predicate IsCommitmentScript(script: Script) {
    script.LongScript? && script.head == MAGIC
  }

  /** The payload of the last output that starts with the magic bytes. */
  function WitnessCommitment(outputs: seq<TxOut>): Option<Digest> {
    if outputs == [] then None
    else
      var last := outputs[|outputs| - 1].scriptPubkey;
      if IsCommitmentScript(last) then Some(last.payload)
      else WitnessCommitment(outputs[..|outputs| - 1])
  }

  /** Output `i` is of at least 38 bytes, of which the first six are those BIP 141 asks for. */
  predicate MagicAt(outputs: seq<TxOut>, i: nat) {
    && i < |outputs| && outputs[i].scriptPubkey.LongScript?
    && outputs[i].scriptPubkey.head == [0x6a, 0x24, 0xaa, 0x21, 0xa9, 0xed]
  }

  ghost predicate LastMagic(outputs: seq<TxOut>, i: nat) {
    MagicAt(outputs, i) && forall j: nat :: j > i ==> !MagicAt(outputs, j)
  }

  /** Of several magic outputs the last one counts; there is a commitment exactly when there is one. */
  lemma {:induction false} WitnessCommitmentIff(outputs: seq<TxOut>)
    ensures WitnessCommitment(outputs).None? <==> forall i: nat :: !MagicAt(outputs, i)
    ensures forall i: nat :: LastMagic(outputs, i) ==>
      WitnessCommitment(outputs) == Some(outputs[i].scriptPubkey.payload)
    ensures WitnessCommitment(outputs).Some? ==> exists i: nat :: LastMagic(outputs, i)
  {
    if outputs != [] {
      var n := |outputs| - 1;
      var rest := outputs[..n];
      WitnessCommitmentIff(rest);
      assert forall i: nat :: i != n ==> (MagicAt(outputs, i) <==> MagicAt(rest, i));
      if MagicAt(outputs, n) {
        assert LastMagic(outputs, n);
      } else {
        assert forall i: nat :: LastMagic(outputs, i) <==> LastMagic(rest, i);
      }
    }
  }

  /** What `CalculateRootNoDups` computes. */
  function RootNoDups(hashes: seq<Digest>): Result<Digest, L1BodyError> {
    if hashes == [] then Err(EmptyBlock)
    else if HasDuplicates(hashes) then Err(DuplicateTransaction)
    else Ok(Root(hashes))
  }

  /** Takes the root in block order, then sorts a copy and scans neighbours. */
  method CalculateRootNoDups(rank: Digest -> int, hashes: seq<Digest>)
      returns (r: Result<Digest, L1BodyError>)
    requires Injective(rank)
    ensures r == RootNoDups(hashes)
  {
    var leaves := hashes;
    var root := CalculateRoot(leaves);
    if root.None? {
      return Err(EmptyBlock);
    }
    SortCorrect(rank, leaves);
    leaves := Sort(rank, leaves);
    AdjacentScanExact(rank, hashes, leaves);
    if AdjacentEqual(leaves) {
      return Err(DuplicateTransaction);
    }
    return Ok(root.value);
  }

  /** The witness leaves: the coinbase is replaced by zeroes. */
  function WitnessLeaves(txs: seq<Transaction>): (r: seq<Digest>)
    ensures |r| == |txs|
  {
    seq(|txs|, i requires 0 <= i < |txs| => if i == 0 then Zero else Wtxid(txs[i]))
  }

  function CheckBlockIntegrity(block: Block, proof: Option<TxidInclusionProof>): Result<Digest, L1BodyError> {
    var txs := block.txdata;
    if txs == [] then Err(EmptyBlock)
    else if !txs[0].IsCoinbase() then Err(NotCoinbase)
    else match WitnessCommitment(txs[0].output)
      case Some(commitment) => CheckCommitted(block, proof, commitment)
      case None =>
        if exists i :: 0 <= i < |txs| && txs[i].HasWitness() then Err(UncommittedWitnessData)
        else match RootNoDups(Txids(txs))
          case Err(e) => Err(e)
          case Ok(root) =>
            if root != block.header.merkleRoot then Err(MerkleRootMismatch)
            else Ok(block.header.merkleRoot)
  }

  function CheckCommitted(block: Block, proof: Option<TxidInclusionProof>, commitment: Digest)
      : Result<Digest, L1BodyError>
    requires block.txdata != [] && block.txdata[0].IsCoinbase()
  {
    var coinbase := block.txdata[0];
    var stack := coinbase.input[0].witnessStack;
    if proof.None? then Err(MissingInclusionProof)
    else if |stack| != 1 || !stack[0].Item32? then Err(InvalidCoinbaseWitness)
    else match RootNoDups(WitnessLeaves(block.txdata))
      case Err(e) => Err(e)
      case Ok(witnessRoot) =>
        if commitment != HashPair(witnessRoot, stack[0].word) then Err(WitnessCommitmentMismatch)
        else if !Verify(proof.value, coinbase, block.header.merkleRoot, |block.txdata|) then Err(InvalidInclusionProof)
        else Ok(witnessRoot)
  }

  predicate Accepted(block: Block, proof: Option<TxidInclusionProof>) {
    CheckBlockIntegrity(block, proof).Ok?
  }

  predicate Committed(block: Block) {
    block.txdata != [] && WitnessCommitment(block.txdata[0].output).Some?
  }

  /** The coinbase proof, where one is used, is for position 0, as the worker makes it. */
  predicate ProvesFirst(block: Block, proof: Option<TxidInclusionProof>) {
    Committed(block) ==> proof.Some? && proof.value.position == 0
  }

  // ---- What is accepted -----------------------------------------------------------

  /** The proof the worker makes: the coinbase at position 0. */
  function WorkerProof(block: Block): TxidInclusionProof
    requires block.txdata != []
  {
    TxidInclusionProof(0, Siblings(Txids(block.txdata), 0))
  }

  /** The first transaction, and it alone by position, has the one null input. */
  predicate HeadedByCoinbase(txs: seq<Transaction>) {
    txs != [] && |txs[0].input| == 1 && txs[0].input[0].prevout == OutPoint(Zero, 0xFFFF_FFFF)
  }

  /** The last magic output of the coinbase commits to the witness root and the coinbase's one witness word. */
  ghost predicate WitnessesCommitted(txs: seq<Transaction>)
    requires HeadedByCoinbase(txs)
  {
    var stack := txs[0].input[0].witnessStack;
    && |stack| == 1 && stack[0].Item32?
    && !HasDuplicates(WitnessLeaves(txs))
    && exists i: nat :: LastMagic(txs[0].output, i) &&
         txs[0].output[i].scriptPubkey.payload == HashPair(Root(WitnessLeaves(txs)), stack[0].word)
  }

  /** No magic output, no witness anywhere, no transaction twice. */
  ghost predicate WithoutWitnesses(txs: seq<Transaction>)
    requires HeadedByCoinbase(txs)
  {
    && (forall i: nat :: !MagicAt(txs[0].output, i))
    && (forall i, j :: 0 <= i < |txs| && 0 <= j < |txs[i].input| ==> txs[i].input[j].witnessStack == [])
    && !HasDuplicates(Txids(txs))
  }

  /**
   A block is accepted, with or without a proof, if and only if it starts with a
   coinbase and either its witnesses are committed to and the proof ties the coinbase
   to the header, or there are no witnesses and the header has the root of its txids.
   */
  lemma {:induction false} AcceptedIff(block: Block, proof: Option<TxidInclusionProof>)
    ensures var txs, r := block.txdata, CheckBlockIntegrity(block, proof);
      && (r.Ok? <==>
            && HeadedByCoinbase(txs)
            && (|| (WitnessesCommitted(txs) && proof.Some? &&
                    Verify(proof.value, txs[0], block.header.merkleRoot, |txs|))
                || (WithoutWitnesses(txs) && block.header.merkleRoot == Root(Txids(txs)))))
      && (r.Ok? ==> r.value == if WitnessesCommitted(txs) then Root(WitnessLeaves(txs)) else Root(Txids(txs)))
  {
    var txs := block.txdata;
    if HeadedByCoinbase(txs) {
      WitnessCommitmentIff(txs[0].output);
      WitnessIff(txs);
    }
  }

  /**
   With the worker's proof a block is accepted if and only if it starts with a
   coinbase, its header has the root of its txids, and its witnesses are committed to
   or there are none; the result is then the witness root, or the header's own.
   */
  lemma {:induction false} WorkerAcceptsIff(block: Block)
    requires block.txdata != []
    ensures var txs, r := block.txdata, CheckBlockIntegrity(block, Some(WorkerProof(block)));
      && (r.Ok? <==>
            && HeadedByCoinbase(txs) && block.header.merkleRoot == Root(Txids(txs))
            && (WitnessesCommitted(txs) || WithoutWitnesses(txs)))
      && (r.Ok? ==> r.value == if WitnessesCommitted(txs) then Root(WitnessLeaves(txs)) else Root(Txids(txs)))
  {
    GeneratedProofVerifies(Txids(block.txdata), 0);
    AcceptedIff(block, Some(WorkerProof(block)));
  }

  lemma {:induction false} WitnessIff(txs: seq<Transaction>)
    ensures (exists i :: 0 <= i < |txs| && txs[i].HasWitness()) <==>
            !(forall i, j :: 0 <= i < |txs| && 0 <= j < |txs[i].input| ==> txs[i].input[j].witnessStack == [])
  {
  }

  // ---- Binding -------------------------------------------------------------------

  /** Under an accepted header the leftmost leaf is the coinbase's txid. */
  lemma {:induction false} HeaderShowsCoinbase(block: Block, proof: Option<TxidInclusionProof>)
    requires Accepted(block, proof) && ProvesFirst(block, proof)
    ensures var root := block.header.merkleRoot;
      Leftmost(root, LeftSpine(root)) == Txid(block.txdata[0])
  {
    if Committed(block) {
      ClimbFromZero(Txid(block.txdata[0]), proof.value.siblings);
    } else {
      RootShowsDepth(Txids(block.txdata));
    }
  }

  lemma {:induction false} LegacyBodiesEqual(a: Block, p: Option<TxidInclusionProof>, b: Block,
      q: Option<TxidInclusionProof>)
    requires Accepted(a, p) && Accepted(b, q) && !Committed(a) && !Committed(b)
    requires a.header.merkleRoot == b.header.merkleRoot
    ensures a.txdata == b.txdata
  {
    RootInjective(Txids(a.txdata), Txids(b.txdata));
    forall i | 0 <= i < |a.txdata| ensures a.txdata[i] == b.txdata[i] {
      assert Txids(a.txdata)[i] == Txids(b.txdata)[i];
      var s, t := a.txdata[i], b.txdata[i];
      TxidBindsStripped(s, t);
      assert !s.HasWitness() && !t.HasWitness();
    }
  }

  lemma {:induction false} CommittedBodiesEqual(a: Block, p: Option<TxidInclusionProof>, b: Block,
      q: Option<TxidInclusionProof>)
    requires Accepted(a, p) && Accepted(b, q) && Committed(a) && Committed(b)
    requires Txid(a.txdata[0]) == Txid(b.txdata[0])
    ensures a.txdata == b.txdata
  {
    TxidBindsStripped(a.txdata[0], b.txdata[0]);
    WitnessRootBinds(a.txdata, b.txdata);
  }

  /** One witness root and one coinbase, one body. */
  lemma {:induction false} WitnessRootBinds(s: seq<Transaction>, t: seq<Transaction>)
    requires s != [] && t != [] && s[0] == t[0]
    requires Root(WitnessLeaves(s)) == Root(WitnessLeaves(t))
    requires !HasDuplicates(WitnessLeaves(s)) && !HasDuplicates(WitnessLeaves(t))
    ensures s == t
  {
    RootInjective(WitnessLeaves(s), WitnessLeaves(t));
    forall i | 0 < i < |s| ensures s[i] == t[i] {
      assert WitnessLeaves(s)[i] == WitnessLeaves(t)[i];
      WtxidBinds(s[i], t[i]);
    }
  }

  /** Under one root, two accepted bodies are equal exactly when their coinbases share a txid. */
  lemma {:induction false} BodyBoundByCoinbase(a: Block, p: Option<TxidInclusionProof>, b: Block,
      q: Option<TxidInclusionProof>)
    requires Accepted(a, p) && Accepted(b, q)
    requires a.header.merkleRoot == b.header.merkleRoot
    ensures a.txdata == b.txdata <==> Txid(a.txdata[0]) == Txid(b.txdata[0])
  {
    if Txid(a.txdata[0]) == Txid(b.txdata[0]) {
      TxidBindsStripped(a.txdata[0], b.txdata[0]);
      assert Committed(a) <==> Committed(b);
      if Committed(a) {
        CommittedBodiesEqual(a, p, b, q);
      } else {
        LegacyBodiesEqual(a, p, b, q);
      }
    }
  }

  /** A header binds one body: witnesses included, on either path or across the two. */
  lemma {:induction false} HeaderBindsBody(a: Block, p: Option<TxidInclusionProof>, b: Block,
      q: Option<TxidInclusionProof>)
    requires Accepted(a, p) && Accepted(b, q)
    requires ProvesFirst(a, p) && ProvesFirst(b, q)
    requires a.header.merkleRoot == b.header.merkleRoot
    ensures a.txdata == b.txdata
    ensures CheckBlockIntegrity(a, p) == CheckBlockIntegrity(b, q)
  {
    HeaderShowsCoinbase(a, p);
    HeaderShowsCoinbase(b, q);
    BodyBoundByCoinbase(a, p, b, q);
  }

  /** With the proof the worker generates, both paths tie the header to the txid list. */
  lemma {:induction false} WorkerProofTiesTxids(block: Block)
    requires block.txdata != [] && Accepted(block, Some(WorkerProof(block)))
    ensures block.header.merkleRoot == Root(Txids(block.txdata))
  {
    GeneratedProofVerifies(Txids(block.txdata), 0);
  }

  /**
   Repeating the trailing subtree of an accepted body keeps the txid root and
   every accepted coinbase proof, and is rejected for the repetition alone.
   */
  lemma {:induction false} MutatedBodyRejected(block: Block, proof: Option<TxidInclusionProof>, w: nat)
    requires Accepted(block, proof) && MutationWidth(|block.txdata|) == Some(w)
    ensures var mutated := Repeated(block.txdata, w);
      && Root(Txids(mutated)) == Root(Txids(block.txdata))
      && (Committed(block) ==> Verify(proof.value, mutated[0], block.header.merkleRoot, |mutated|))
      && CheckBlockIntegrity(block.(txdata := mutated), proof) == Err(DuplicateTransaction)
  {
    var txs, mutated := block.txdata, Repeated(block.txdata, w);
    RepeatedLeaves(txs, w);
    assert mutated[0] == txs[0];
    assert Root(Txids(mutated)) == Root(Txids(txs)) by { MutationKeepsRoot(Txids(txs), w); }
    assert Depth(|mutated|) == Depth(|txs|) by { MutationKeepsDepth(|txs|, w); }
    assert HasDuplicates(WitnessLeaves(mutated)) by { RepeatedHasDuplicates(WitnessLeaves(txs), w); }
    assert HasDuplicates(Txids(mutated)) by { RepeatedHasDuplicates(Txids(txs), w); }
    if !Committed(block) {
      RepeatedWithoutWitness(txs, w);
    }
    RepeatingBodyRejected(block, mutated, proof);
  }

  lemma {:induction false} RepeatingBodyRejected(block: Block, mutated: seq<Transaction>,
      proof: Option<TxidInclusionProof>)
    requires Accepted(block, proof)
    requires mutated != [] && mutated[0] == block.txdata[0]
    requires HasDuplicates(WitnessLeaves(mutated)) && HasDuplicates(Txids(mutated))
    requires !Committed(block) ==> forall i :: 0 <= i < |mutated| ==> !mutated[i].HasWitness()
    ensures CheckBlockIntegrity(block.(txdata := mutated), proof) == Err(DuplicateTransaction)
  {
  }

  lemma {:induction false} RepeatedWithoutWitness(txs: seq<Transaction>, w: nat)
    requires w <= |txs| && forall i :: 0 <= i < |txs| ==> !txs[i].HasWitness()
    ensures forall i :: 0 <= i < |Repeated(txs, w)| ==> !Repeated(txs, w)[i].HasWitness()
  {
    forall i | 0 <= i < |Repeated(txs, w)| ensures !Repeated(txs, w)[i].HasWitness() {
      assert Repeated(txs, w)[i] == txs[if i < |txs| then i else i - w];
    }
  }

  lemma {:induction false} RepeatedLeaves(txs: seq<Transaction>, w: nat)
    requires w < |txs|
    ensures Txids(Repeated(txs, w)) == Repeated(Txids(txs), w)
    ensures WitnessLeaves(Repeated(txs, w)) == Repeated(WitnessLeaves(txs), w)
  {
  }

  // ---- Why the position matters ------------------------------------------------------

  /** A coinbase whose commitment covers a body of itself and `other`. */
  function CoinbaseOver(other: Transaction, lockTime: nat): Transaction {
    Transaction(1,
      [TxIn(OutPoint(Zero, 0xFFFF_FFFF), ShortScript([]), 0, [Item32(Zero)])],
      [TxOut(0, LongScript(MAGIC, Pair(Pair(Zero, Wtxid(other)), Zero), []))],
      lockTime)
  }

  lemma {:induction false} CoinbaseOverCommits(other: Transaction, lockTime: nat, root: Digest,
      proof: TxidInclusionProof)
    requires Verify(proof, CoinbaseOver(other, lockTime), root, 2)
    ensures Accepted(Block(Header(Zero, root, 0, 0, 0), [CoinbaseOver(other, lockTime), other]), Some(proof))
  {
    var cb := CoinbaseOver(other, lockTime);
    var txs := [cb, other];
    assert cb.IsCoinbase();
    assert WitnessCommitment(cb.output) == Some(Pair(Pair(Zero, Wtxid(other)), Zero));
    assert WitnessLeaves(txs) == [Zero, Wtxid(other)];
    NextLevelAt(WitnessLeaves(txs), 0);
    assert NextLevel(WitnessLeaves(txs)) == [Pair(Zero, Wtxid(other))];
    assert Root(WitnessLeaves(txs)) == Pair(Zero, Wtxid(other));
    assert !HasDuplicates([Zero, Wtxid(other)]);
  }

  /**
   Without `ProvesFirst` one root admits two bodies: a second coinbase-shaped
   transaction can be proved at position 1 and heads a body of its own.
   */
  lemma {:induction false} OtherPositionAdmitsTwoBodies()
    ensures exists a: Block, p: TxidInclusionProof, b: Block, q: TxidInclusionProof ::
      && Accepted(a, Some(p)) && Accepted(b, Some(q))
      && p.position == 0 && q.position == 1
      && a.header == b.header && a.txdata != b.txdata
  {
    var x := Transaction(2, [], [], 0);
    var second := CoinbaseOver(x, 1);
    var first := CoinbaseOver(second, 2);
    var root := Pair(Txid(first), Txid(second));
    var header := Header(Zero, root, 0, 0, 0);
    var p, q := TxidInclusionProof(0, [Txid(second)]), TxidInclusionProof(1, [Txid(first)]);
    DepthStep(2);
    assert Climb(Txid(first), 0, p.siblings) == root;
    assert Climb(Txid(second), 1, q.siblings) == root;
    CoinbaseOverCommits(second, 2, root, p);
    CoinbaseOverCommits(x, 1, root, q);
    var a, b := Block(header, [first, second]), Block(header, [second, x]);
    assert a.txdata[0].lockTime != b.txdata[0].lockTime;
    assert Accepted(a, Some(p)) && Accepted(b, Some(q));
  }
}
