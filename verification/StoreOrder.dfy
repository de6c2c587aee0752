/**
 The worker names a block by its height and a number; the store keys it by bytes.
 A block id read as a big-endian number makes the two orders one.
 */
module StoreOrder {
  import opened Wrappers
  import opened Identifiers
  import opened Sync
  import opened StorageKeys
  import Worker

  /** The big-endian number a byte string stands for. */
  function Number(b: seq<Byte>): nat {
    if b == [] then 0
    else
      var n := |b| - 1;
      Number(b[..n]) * 256 + b[n]
  }

  /** The worker's name for a commitment. */
  function Named(c: L1BlockCommitment): Commitment {
    Commitment(c.height, Number(c.blkid))
  }

  /** Equally long byte strings are ordered as their numbers. */
  lemma {:induction false} NumberOrder(a: seq<Byte>, b: seq<Byte>)
    requires |a| == |b|
    ensures Below(a, b) <==> Number(a) < Number(b)
    ensures a == b <==> Number(a) == Number(b)
  {
    if a != [] {
      var n := |a| - 1;
      NumberOrder(a[..n], b[..n]);
      assert a == a[..n] + [a[n]] && b == b[..n] + [b[n]];
      BelowAppend(a[..n], [a[n]], b[..n], [b[n]]);
      assert Below([a[n]], [b[n]]) <==> a[n] < b[n];
    }
  }

  /** Names are unique, and the store's order is the worker's. */
  lemma {:induction false} NamedOrder(c: L1BlockCommitment, d: L1BlockCommitment)
    ensures Named(c) == Named(d) <==> c == d
    ensures Earlier(c, d) <==>
      Named(c).height < Named(d).height || (Named(c).height == Named(d).height && Named(c).blkid < Named(d).blkid)
  {
    NumberOrder(c.blkid, d.blkid);
  }

  /** The entry that the byte-keyed store finds last is the latest anchor the worker resumes from. */
  lemma {:induction false} LatestIsLatest(stored: set<L1BlockCommitment>, latest: L1BlockCommitment,
      anchors: map<Commitment, Worker.Anchor>)
    requires latest in stored && forall c :: c in stored ==> c == latest || Earlier(c, latest)
    requires anchors.Keys == (set c | c in stored :: Named(c))
    ensures Worker.IsLatest(anchors, Some(Named(latest)))
  {
    forall k | k in anchors
      ensures k.height < latest.height || (k.height == latest.height && k.blkid <= Named(latest).blkid)
    {
      var c :| c in stored && Named(c) == k;
      NamedOrder(c, latest);
    }
  }
}
