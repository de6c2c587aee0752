/**
 The parts of a Bitcoin block the anchor state machine reads.

 SHA-256d is idealised as a free constructor: two digests are equal only when
 they were built from the same preimage. A 32-byte value that occurs as data
 (a script payload, a witness item) is itself a `Digest`.
 */
module Bitcoin {
  import opened Identifiers

  datatype Digest =
    | Word(n: nat)                          // 32 bytes that are no hash output
    | TxHash(encoding: TxEncoding)          // SHA-256d of an encoded transaction
    | Pair(left: Digest, right: Digest)     // SHA-256d of 64 bytes

  const Zero: Digest := Word(0)

  /** Consensus encodings: the extended one carries marker, flag and witnesses. */
  datatype TxEncoding = Legacy(legacy: Transaction) | Extended(extended: Transaction)

  datatype OutPoint = OutPoint(txid: Digest, vout: nat) {
    predicate IsNull() {
      txid == Zero && vout == 0xFFFF_FFFF
    }
  }

  /** A witness stack item: one of exactly 32 bytes, or any other string. */
  datatype WitnessItem = Item32(word: Digest) | ItemOther(bytes: seq<Byte>)

  /** A script seen as the commitment scan sees it: bytes 0..6, 6..38 and the rest. */
  datatype Script =
    | ShortScript(bytes: seq<Byte>)
    | LongScript(head: seq<Byte>, payload: Digest, tail: seq<Byte>)

  datatype TxIn = TxIn(prevout: OutPoint, scriptSig: Script, sequence: nat, witnessStack: seq<WitnessItem>)

  datatype TxOut = TxOut(value: nat, scriptPubkey: Script)

  datatype Transaction = Transaction(version: int, input: seq<TxIn>, output: seq<TxOut>, lockTime: nat) {

    predicate IsCoinbase() {
      |input| == 1 && input[0].prevout.IsNull()
    }

    predicate HasWitness() {
      exists i :: 0 <= i < |input| && input[i].witnessStack != []
    }
  }

  function StripInput(i: TxIn): TxIn {
    i.(witnessStack := [])
  }

  /** The transaction without its witnesses: all that a txid commits to. */
  function Strip(tx: Transaction): Transaction {
    tx.(input := seq(|tx.input|, i requires 0 <= i < |tx.input| => StripInput(tx.input[i])))
  }

  function Txid(tx: Transaction): Digest {
    TxHash(Legacy(Strip(tx)))
  }

  /** An input-less transaction always takes the extended form. */
  function Wtxid(tx: Transaction): Digest {
    if tx.HasWitness() || tx.input == [] then TxHash(Extended(tx)) else TxHash(Legacy(tx))
  }

  function Txids(txs: seq<Transaction>): (r: seq<Digest>)
    ensures |r| == |txs|
  {
    seq(|txs|, i requires 0 <= i < |txs| => Txid(txs[i]))
  }

  datatype Header = Header(prev: Digest, merkleRoot: Digest, time: nat, bits: nat, rest: nat)

  datatype Block = Block(header: Header, txdata: seq<Transaction>)

  /** A txid hides exactly the witnesses. */
  lemma {:induction false} TxidBindsStripped(a: Transaction, b: Transaction)
    requires Txid(a) == Txid(b)
    ensures Strip(a) == Strip(b)
    ensures a.output == b.output && |a.input| == |b.input|
    ensures forall i :: 0 <= i < |a.input| ==> StripInput(a.input[i]) == StripInput(b.input[i])
    ensures (forall i :: 0 <= i < |a.input| ==> a.input[i].witnessStack == b.input[i].witnessStack) ==> a == b
  {
    assert Strip(a).output == a.output && Strip(b).output == b.output;
    forall i | 0 <= i < |a.input|
      ensures |b.input| == |a.input| && StripInput(a.input[i]) == StripInput(b.input[i])
    {
      assert Strip(a).input[i] == StripInput(a.input[i]);
      assert Strip(b).input[i] == StripInput(b.input[i]);
    }
    if forall i :: 0 <= i < |a.input| ==> a.input[i].witnessStack == b.input[i].witnessStack {
      forall i | 0 <= i < |a.input| ensures a.input[i] == b.input[i] {
        assert StripInput(a.input[i]) == StripInput(b.input[i]);
      }
      assert a.input == b.input;
      assert Strip(a).version == a.version && Strip(b).version == b.version;
      assert Strip(a).lockTime == a.lockTime && Strip(b).lockTime == b.lockTime;
    }
  }

  /** Transactions share a txid exactly when they differ in their witnesses alone. */
  lemma {:induction false} TxidIff(a: Transaction, b: Transaction)
    ensures Txid(a) == Txid(b) <==>
      && a.version == b.version && a.output == b.output && a.lockTime == b.lockTime && |a.input| == |b.input|
      && forall i :: 0 <= i < |a.input| ==>
           && a.input[i].prevout == b.input[i].prevout
           && a.input[i].scriptSig == b.input[i].scriptSig
           && a.input[i].sequence == b.input[i].sequence
  {
    if Txid(a) == Txid(b) {
      TxidBindsStripped(a, b);
      assert Strip(a).version == a.version && Strip(b).version == b.version;
      assert Strip(a).lockTime == a.lockTime && Strip(b).lockTime == b.lockTime;
      forall i | 0 <= i < |a.input|
        ensures a.input[i].prevout == b.input[i].prevout && a.input[i].scriptSig == b.input[i].scriptSig
        ensures a.input[i].sequence == b.input[i].sequence
      {
        assert StripInput(a.input[i]) == StripInput(b.input[i]);
      }
    }
    if |a.input| == |b.input| && forall i :: 0 <= i < |a.input| ==> StripInput(a.input[i]) == StripInput(b.input[i]) {
      assert Strip(a).input == Strip(b).input;
    }
  }

  /** A wtxid is the txid exactly when there is an input and none has a witness. */
  lemma {:induction false} WtxidIsTxidIff(tx: Transaction)
    ensures Wtxid(tx) == Txid(tx) <==>
            tx.input != [] && forall i :: 0 <= i < |tx.input| ==> tx.input[i].witnessStack == []
  {
    if forall i :: 0 <= i < |tx.input| ==> tx.input[i].witnessStack == [] {
      assert Strip(tx).input == tx.input;
    }
  }

  /** A wtxid hides nothing. */
  lemma {:induction false} WtxidBinds(a: Transaction, b: Transaction)
    requires Wtxid(a) == Wtxid(b)
    ensures a == b
  {
  }
}
