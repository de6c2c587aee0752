/**
 The backward walk from a tip to the nearest ancestor whose state is stored.
 */
module Sync {
  import opened Wrappers

  type BlockId = nat

  /** A block named by its height and id. */
  datatype Commitment = Commitment(height: nat, blkid: BlockId)

  datatype SyncPlan<+S> = SyncPlan(baseState: S, baseBlock: Commitment, pending: seq<Commitment>)

  datatype SyncError<+E> = ReachedFloor(tip: Commitment, floor: nat) | Provider(error: E)

  /** A parent stands one height below its child. */
  ghost predicate Descends<E(!new)>(parentOf: Commitment -> Result<Commitment, E>) {
    forall b :: parentOf(b).Ok? ==> parentOf(b).value.height + 1 == b.height
  }

  /** The walk, newest block first. */
  function Walk<S, E(!new)>(cursor: Commitment, tip: Commitment, floor: nat,
      baseAt: Commitment -> Result<Option<S>, E>, parentOf: Commitment -> Result<Commitment, E>)
      : Result<SyncPlan<S>, SyncError<E>>
    requires Descends(parentOf)
    decreases cursor.height
  {
    match baseAt(cursor)
    case Err(e) => Err(Provider(e))
    case Ok(Some(state)) => Ok(SyncPlan(state, cursor, []))
    case Ok(None) =>
      if cursor.height <= floor then Err(ReachedFloor(tip, floor))
      else match parentOf(cursor)
        case Err(e) => Err(Provider(e))
        case Ok(parent) =>
          match Walk(parent, tip, floor, baseAt, parentOf)
          case Err(e) => Err(e)
          case Ok(plan) => Ok(plan.(pending := [cursor] + plan.pending))
  }

  /** The loop: a cursor moving down, the blocks above it collected. */
  method PlanSync<S, E(!new)>(tip: Commitment, floor: nat,
      baseAt: Commitment -> Result<Option<S>, E>, parentOf: Commitment -> Result<Commitment, E>)
      returns (r: Result<SyncPlan<S>, SyncError<E>>)
    requires Descends(parentOf)
    ensures r == Walk(tip, tip, floor, baseAt, parentOf)
  {
    var pending: seq<Commitment> := [];
    var cursor := tip;
    ghost var whole := Walk(tip, tip, floor, baseAt, parentOf);
    assert whole.Ok? ==> [] + whole.value.pending == whole.value.pending;
    while true
      invariant whole ==
                match Walk(cursor, tip, floor, baseAt, parentOf)
                case Err(e) => Err(e)
                case Ok(plan) => Ok(plan.(pending := pending + plan.pending))
      decreases cursor.height
    {
      var base := baseAt(cursor);
      if base.Err? {
        return Err(Provider(base.error));
      }
      if base.value.Some? {
        assert pending + [] == pending;
        return Ok(SyncPlan(base.value.value, cursor, pending));
      }
      if cursor.height <= floor {
        return Err(ReachedFloor(tip, floor));
      }
      var parent := parentOf(cursor);
      if parent.Err? {
        return Err(Provider(parent.error));
      }
      ghost var above := Walk(parent.value, tip, floor, baseAt, parentOf);
      assert above.Ok? ==> pending + ([cursor] + above.value.pending) == (pending + [cursor]) + above.value.pending;
      pending := pending + [cursor];
      cursor := parent.value;
    }
  }

  // ---- What a plan is ---------------------------------------------------------------

  /** The block `k` parent links above `b`. */
  function Ancestor<E>(parentOf: Commitment -> Result<Commitment, E>, b: Commitment, k: nat): Option<Commitment>
    decreases k
  {
    if k == 0 then Some(b)
    else match parentOf(b)
      case Err(_) => None
      case Ok(parent) => Ancestor(parentOf, parent, k - 1)
  }

  /** The block `j` links above `b` is a real one above the floor with no stored state. */
  ghost predicate UnprocessedAt<S, E>(baseAt: Commitment -> Result<Option<S>, E>,
      parentOf: Commitment -> Result<Commitment, E>, floor: nat, b: Commitment, j: nat)
  {
    match Ancestor(parentOf, b, j)
    case None => false
    case Some(a) => baseAt(a) == Ok(None) && a.height == b.height - j && a.height > floor
  }

  /**
   The three outcomes, told by ancestry alone. A plan: the nearest ancestor with
   stored state, and exactly the path above it at consecutive heights. The floor:
   an ancestor at or below the floor with no stored state down to it. A provider
   error: the first lookup on the path that failed.
   */
  lemma {:induction false} WalkExact<S, E(!new)>(cursor: Commitment, tip: Commitment, floor: nat,
      baseAt: Commitment -> Result<Option<S>, E>, parentOf: Commitment -> Result<Commitment, E>)
      returns (k: nat)
    requires Descends(parentOf)
    ensures forall j: nat :: j < k ==> UnprocessedAt(baseAt, parentOf, floor, cursor, j)
    ensures Ancestor(parentOf, cursor, k).Some?
    ensures Ancestor(parentOf, cursor, k).value.height == cursor.height - k
    ensures
      var last := Ancestor(parentOf, cursor, k).value;
      match Walk(cursor, tip, floor, baseAt, parentOf)
      case Ok(plan) =>
        && plan.baseBlock == last && baseAt(last) == Ok(Some(plan.baseState))
        && |plan.pending| == k
        && forall j: nat :: j < k ==> Some(plan.pending[j]) == Ancestor(parentOf, cursor, j)
      case Err(ReachedFloor(t, f)) =>
        t == tip && f == floor && baseAt(last) == Ok(None) && last.height <= floor
      case Err(Provider(e)) =>
        || baseAt(last) == Err(e)
        || (baseAt(last) == Ok(None) && last.height > floor && parentOf(last) == Err(e))
    decreases cursor.height
  {
    if baseAt(cursor) != Ok(None) || cursor.height <= floor || parentOf(cursor).Err? {
      k := 0;
    } else {
      var parent := parentOf(cursor).value;
      var k' := WalkExact(parent, tip, floor, baseAt, parentOf);
      k := k' + 1;
      forall j: nat | j < k ensures UnprocessedAt(baseAt, parentOf, floor, cursor, j) {
        if j > 0 {
          assert UnprocessedAt(baseAt, parentOf, floor, parent, j - 1);
          assert Ancestor(parentOf, cursor, j) == Ancestor(parentOf, parent, j - 1);
        }
      }
      var r := Walk(parent, tip, floor, baseAt, parentOf);
      if r.Ok? {
        forall j: nat | j < k
          ensures Some(([cursor] + r.value.pending)[j]) == Ancestor(parentOf, cursor, j)
        {
          if j > 0 {
            assert Ancestor(parentOf, cursor, j) == Ancestor(parentOf, parent, j - 1);
          }
        }
      }
    }
  }

  /** Stored blocks off the tip's ancestry, and ancestors below the floor, are never consulted. */
  lemma {:induction false} OffAncestryIrrelevant<S, E(!new)>(cursor: Commitment, tip: Commitment, floor: nat,
      baseAt: Commitment -> Result<Option<S>, E>, baseAt': Commitment -> Result<Option<S>, E>,
      parentOf: Commitment -> Result<Commitment, E>)
    requires Descends(parentOf)
    requires forall k: nat :: Ancestor(parentOf, cursor, k).Some? && (k == 0 || cursor.height - k >= floor) ==>
               baseAt(Ancestor(parentOf, cursor, k).value) == baseAt'(Ancestor(parentOf, cursor, k).value)
    ensures Walk(cursor, tip, floor, baseAt, parentOf) == Walk(cursor, tip, floor, baseAt', parentOf)
    decreases cursor.height
  {
    assert baseAt(cursor) == baseAt'(cursor) by {
      assert Ancestor(parentOf, cursor, 0) == Some(cursor);
    }
    if baseAt(cursor) == Ok(None) && cursor.height > floor && parentOf(cursor).Ok? {
      var parent := parentOf(cursor).value;
      forall k: nat | Ancestor(parentOf, parent, k).Some? && parent.height - k >= floor
        ensures baseAt(Ancestor(parentOf, parent, k).value) == baseAt'(Ancestor(parentOf, parent, k).value)
      {
        assert Ancestor(parentOf, cursor, k + 1) == Ancestor(parentOf, parent, k);
      }
      OffAncestryIrrelevant(parent, tip, floor, baseAt, baseAt', parentOf);
    }
  }
}
