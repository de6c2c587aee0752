/**
 The byte-keyed state store. Keys are the big-endian height followed by the block
 id, so the store's byte order is the order by height; pruning and the latest
 lookup work on raw bytes and rely on that.
 */
module StorageKeys {
  import opened Wrappers
  import opened Identifiers

  const KEY_SIZE := 36

  // ---- Keys --------------------------------------------------------------------------------

  function BigEndian(n: U32): (b: seq<Byte>)
    ensures |b| == 4
  {
    var m := n / 256;
    var k := m / 256;
    [k / 256, k % 256, m % 256, n % 256]
  }

  function Horner(b0: Byte, b1: Byte, b2: Byte, b3: Byte): U32 {
    var hi: int := b0;
    ((hi * 256 + b1) * 256 + b2) * 256 + b3
  }

  function FromBigEndian(b: seq<Byte>): U32
    requires |b| == 4
  {
    Horner(b[0], b[1], b[2], b[3])
  }

  function Encode(c: L1BlockCommitment): (key: seq<Byte>)
    ensures |key| == KEY_SIZE
  {
    BigEndian(c.height) + c.blkid
  }

  function Decode(key: seq<Byte>): L1BlockCommitment
    requires |key| == KEY_SIZE
  {
    L1BlockCommitment(FromBigEndian(key[..4]), key[4..])
  }

  /** Byte strings in the order of the store: the first difference decides, a proper prefix comes first. */
  predicate Below(a: seq<Byte>, b: seq<Byte>) {
    if b == [] then false
    else if a == [] then true
    else a[0] < b[0] || (a[0] == b[0] && Below(a[1..], b[1..]))
  }

  /** By height, then by block id. */
  predicate Earlier(c: L1BlockCommitment, d: L1BlockCommitment) {
    c.height < d.height || (c.height == d.height && Below(c.blkid, d.blkid))
  }

  lemma {:induction false} BigEndianInverse(n: U32, b: seq<Byte>)
    requires |b| == 4
    ensures FromBigEndian(BigEndian(n)) == n
    ensures BigEndian(FromBigEndian(b)) == b
  {
    HornerDigits(b[0], b[1], b[2], b[3]);
  }

  lemma {:induction false} HornerDigits(b0: Byte, b1: Byte, b2: Byte, b3: Byte)
    ensures BigEndian(Horner(b0, b1, b2, b3)) == [b0, b1, b2, b3]
  {
    var hi: int := b0;
    var k := hi * 256 + b1;
    var m := k * 256 + b2;
    assert Horner(b0, b1, b2, b3) == m * 256 + b3;
    assert (m * 256 + b3) / 256 == m && (m * 256 + b3) % 256 == b3;
    assert m / 256 == k && m % 256 == b2;
    assert k / 256 == b0 && k % 256 == b1;
  }

  /** A commitment and its key determine each other. */
  lemma {:induction false} KeysInvertible(c: L1BlockCommitment, key: seq<Byte>)
    requires |key| == KEY_SIZE
    ensures Decode(Encode(c)) == c
    ensures Encode(Decode(key)) == key
  {
    BigEndianInverse(c.height, key[..4]);
    assert Encode(c)[..4] == BigEndian(c.height) && Encode(c)[4..] == c.blkid;
  }

  lemma {:induction false} BelowAppend(p: seq<Byte>, a: seq<Byte>, q: seq<Byte>, b: seq<Byte>)
    requires |p| == |q|
    ensures Below(p + a, q + b) <==> Below(p, q) || (p == q && Below(a, b))
  {
    if p == [] {
      assert p + a == a && q + b == b;
    } else {
      assert (p + a)[1..] == p[1..] + a && (q + b)[1..] == q[1..] + b;
      BelowAppend(p[1..], a, q[1..], b);
      assert p == [p[0]] + p[1..] && q == [q[0]] + q[1..];
    }
  }

  lemma {:induction false} BigEndianOrder(m: U32, n: U32)
    ensures Below(BigEndian(m), BigEndian(n)) <==> m < n
    ensures BigEndian(m) == BigEndian(n) <==> m == n
  {
    var a, b := BigEndian(m), BigEndian(n);
    BigEndianInverse(m, a);
    BigEndianInverse(n, b);
    assert Below(a[3..], b[3..]) <==> a[3] < b[3];
    assert a[2..][1..] == a[3..] && b[2..][1..] == b[3..];
    assert Below(a[2..], b[2..]) <==> a[2] < b[2] || (a[2] == b[2] && a[3] < b[3]);
    assert a[1..][1..] == a[2..] && b[1..][1..] == b[2..];
    HornerOrder(a[0], a[1], a[2], a[3], b[0], b[1], b[2], b[3]);
  }

  lemma {:induction false} HornerOrder(a0: Byte, a1: Byte, a2: Byte, a3: Byte, b0: Byte, b1: Byte, b2: Byte, b3: Byte)
    ensures Horner(a0, a1, a2, a3) < Horner(b0, b1, b2, b3) <==>
      a0 < b0 || (a0 == b0 && (a1 < b1 || (a1 == b1 && (a2 < b2 || (a2 == b2 && a3 < b3)))))
  {
  }

  /** The store's byte order on keys is the order by height, then by block id. */
  lemma {:induction false} KeyOrder(c: L1BlockCommitment, d: L1BlockCommitment)
    ensures Below(Encode(c), Encode(d)) <==> Earlier(c, d)
  {
    BelowAppend(BigEndian(c.height), c.blkid, BigEndian(d.height), d.blkid);
    BigEndianOrder(c.height, d.height);
  }

  /** A bare four-byte height splits the keys exactly at that height. */
  lemma {:induction false} HeightBound(c: L1BlockCommitment, h: U32)
    ensures Below(Encode(c), BigEndian(h)) <==> c.height < h
  {
    BelowAppend(BigEndian(c.height), c.blkid, BigEndian(h), []);
    assert BigEndian(h) + [] == BigEndian(h);
    BigEndianOrder(c.height, h);
  }

  lemma {:induction false} BelowTransitive(a: seq<Byte>, b: seq<Byte>, c: seq<Byte>)
    requires Below(a, b) && Below(b, c)
    ensures Below(a, c)
  {
    if a != [] && a[0] == b[0] == c[0] {
      BelowTransitive(a[1..], b[1..], c[1..]);
    }
  }

  lemma {:induction false} BelowTotal(a: seq<Byte>, b: seq<Byte>)
    ensures Below(a, b) || a == b || Below(b, a)
    ensures !(Below(a, b) && Below(b, a)) && (a == b ==> !Below(a, b))
  {
    if a != [] && b != [] && a[0] == b[0] {
      BelowTotal(a[1..], b[1..]);
      assert a == [a[0]] + a[1..] && b == [b[0]] + b[1..];
    }
  }

  // ---- The store -----------------------------------------------------------------------------

  /** A stored anchor state: the block it is of, and everything else. */
  datatype AnchorState = AnchorState(lastVerifiedBlock: L1BlockCommitment, rest: nat)

  method Greatest(keys: set<seq<Byte>>) returns (m: seq<Byte>)
    requires keys != {}
    ensures m in keys && forall k :: k in keys ==> k == m || Below(k, m)
  {
    m :| m in keys;
    var left := keys - {m};
    while left != {}
      invariant left <= keys && m in keys
      invariant forall k :: k in keys && k !in left ==> k == m || Below(k, m)
      decreases left
    {
      var k :| k in left;
      left := left - {k};
      BelowTotal(k, m);
      if Below(m, k) {
        forall x | x in keys && x !in left && Below(x, m) ensures Below(x, k) {
          BelowTransitive(x, m, k);
        }
        m := k;
      }
    }
  }

  class SledAsmStateDb {
    var states: map<seq<Byte>, AnchorState>

    /** Every entry sits under the key of its own block. */
    ghost predicate Valid()
      reads this
    {
      forall key :: key in states ==> |key| == KEY_SIZE && Decode(key) == states[key].lastVerifiedBlock
    }

    /** The store as a map from commitments. */
    function Get(block: L1BlockCommitment): Option<AnchorState>
      reads this
    {
      if Encode(block) in states then Some(states[Encode(block)]) else None
    }

    constructor ()
      ensures Valid() && forall c :: Get(c) == None
    {
      states := map[];
    }

    method Put(state: AnchorState)
      requires Valid()
      modifies this
      ensures Valid()
      ensures forall c :: Get(c) == if c == state.lastVerifiedBlock then Some(state) else old(Get(c))
    {
      var key := Encode(state.lastVerifiedBlock);
      KeysInvertible(state.lastVerifiedBlock, key);
      states := states[key := state];
      forall c ensures Get(c) == if c == state.lastVerifiedBlock then Some(state) else old(Get(c)) {
        KeysInvertible(c, key);
      }
    }

    /** The state of a stored block that no stored block is later than. */
    method GetLatest() returns (latest: Option<AnchorState>)
      requires Valid()
      ensures latest.None? <==> forall c :: Get(c).None?
      ensures latest.Some? ==>
        && Get(latest.value.lastVerifiedBlock) == latest
        && forall c :: Get(c).Some? ==>
             c == latest.value.lastVerifiedBlock || Earlier(c, latest.value.lastVerifiedBlock)
    {
      if states == map[] {
        return None;
      }
      assert states.Keys != {};
      var key := Greatest(states.Keys);
      latest := Some(states[key]);
      KeysInvertible(latest.value.lastVerifiedBlock, key);
      assert Get(latest.value.lastVerifiedBlock).Some?;
      forall c | Get(c).Some?
        ensures c == latest.value.lastVerifiedBlock || Earlier(c, latest.value.lastVerifiedBlock)
      {
        KeysInvertible(c, key);
        KeyOrder(c, latest.value.lastVerifiedBlock);
      }
    }

    method RemoveAll(keys: set<seq<Byte>>)
      requires Valid()
      modifies this
      ensures Valid()
      ensures states == old(states) - keys
    {
      var left := keys;
      while left != {}
        invariant left <= keys
        invariant states == old(states) - (keys - left)
        decreases left
      {
        var key :| key in left;
        states := states - {key};
        left := left - {key};
      }
    }

    /** Removes exactly the states below the height. */
    method PruneBefore(beforeHeight: U32)
      requires Valid()
      modifies this
      ensures Valid()
      ensures forall c :: Get(c) == if c.height < beforeHeight then None else old(Get(c))
    {
      var upper := BigEndian(beforeHeight);
      var range := set key | key in states && Below(key, upper);
      RemoveAll(range);
      forall c ensures Get(c) == if c.height < beforeHeight then None else old(Get(c)) {
        HeightBound(c, beforeHeight);
      }
    }

    /** Removes exactly the states above the height; above the greatest height there are none. */
    method PruneAfter(afterHeight: U32)
      requires Valid()
      modifies this
      ensures Valid()
      ensures forall c :: Get(c) == if c.height > afterHeight then None else old(Get(c))
    {
      if afterHeight == U32_MAX {
        return;
      }
      var lower := BigEndian(afterHeight + 1);
      var range := set key | key in states && !Below(key, lower);
      RemoveAll(range);
      forall c ensures Get(c) == if c.height > afterHeight then None else old(Get(c)) {
        HeightBound(c, afterHeight + 1);
      }
    }

    method Delete(block: L1BlockCommitment) returns (present: bool)
      requires Valid()
      modifies this
      ensures Valid() && present == old(Get(block)).Some?
      ensures forall c :: Get(c) == if c == block then None else old(Get(c))
    {
      var key := Encode(block);
      present := key in states;
      states := states - {key};
      forall c ensures Get(c) == if c == block then None else old(Get(c)) {
        KeysInvertible(c, key);
        KeysInvertible(block, key);
      }
    }
  }
}
