/**
 Header verification: the state that follows a header chain, and the independent
 re-derivation of the same fields that start-up runs against the L1 source.
 */
module HeaderChain {
  import opened Arithmetic
  import opened Bitcoin
  import opened Timestamps
  import opened Wrappers

  /**
   The consensus parameters of a network. Hashing, the target comparison, the
   work of a header and the compact-target arithmetic come from outside.
   */
  datatype Consensus = Consensus(
    network: nat,
    interval: nat,
    targetTimespan: nat,
    retargets: bool,
    scale: (nat, nat) -> nat,
    blockHash: Header -> Digest,
    meetsTarget: Header -> bool,
    workOf: Header -> nat)

  predicate ValidParams(c: Consensus) {
    c.interval > 0
  }

  function Clamp(x: int, lo: nat, hi: nat): nat
    requires lo <= hi
  {
    if x < lo then lo else if x > hi then hi else x
  }

  function SaturatingSub(a: nat, b: nat): nat {
    if a < b then 0 else a - b
  }

  /** `from_next_work_required`: the timespan is limited to a factor of four. */
  function NextWorkRequired(c: Consensus, bits: nat, timespan: int): nat {
    if !c.retargets then bits
    else c.scale(bits, Clamp(timespan, c.targetTimespan / 4, c.targetTimespan * 4))
  }

  /** First height of the difficulty epoch `idx` epochs after that of `start`. */
  function AdjustmentHeight(idx: nat, start: nat, interval: nat): nat
    requires interval > 0
  {
    (start / interval + idx) * interval
  }

  // ---- The verification state as a value -----------------------------------------

  datatype HeaderState = HeaderState(
    height: nat,
    blkid: Digest,
    nextTarget: nat,
    epochStart: nat,
    window: seq<nat>,
    work: nat)

  datatype L1VerificationError = ContinuityError | PowMismatch | TimestampError | PowNotMet

  function Check(c: Consensus, st: HeaderState, h: Header): Result<(), L1VerificationError>
    requires |st.window| == TIMESTAMPS_FOR_MEDIAN
  {
    if h.prev != st.blkid then Err(ContinuityError)
    else if h.bits != st.nextTarget then Err(PowMismatch)
    else if h.time <= MedianOf(st.window) then Err(TimestampError)
    else if !c.meetsTarget(h) then Err(PowNotMet)
    else Ok(())
  }

  /** The state after a header that passed `Check`. */
  function Update(c: Consensus, st: HeaderState, h: Header): HeaderState
    requires ValidParams(c) && |st.window| == TIMESTAMPS_FOR_MEDIAN
  {
    var height := st.height + 1;
    var epochStart := if height % c.interval == 0 then h.time else st.epochStart;
    var nextTarget :=
      if (height + 1) % c.interval != 0 then st.nextTarget
      else NextWorkRequired(c, h.bits, SaturatingSub(h.time, epochStart));
    HeaderState(height, c.blockHash(h), nextTarget, epochStart,
                Slide(st.window, h.time), st.work + c.workOf(h))
  }

  // ---- Re-derivation from L1 ---------------------------------------------------------

  datatype AnchorMismatch = MissingHeader | NetworkMismatch | BlockMismatch | EpochStartMismatch | NextTargetMismatch

  /** The start-up check of a state against the headers of the active chain. */
  function ValidateAnchor(c: Consensus, l1Network: nat, chain: seq<Header>, st: HeaderState)
      : Result<(), AnchorMismatch>
    requires ValidParams(c)
  {
    if l1Network != c.network then Err(NetworkMismatch)
    else if st.height >= |chain| then Err(MissingHeader)
    else
      var anchor := chain[st.height];
      if c.blockHash(anchor) != st.blkid then Err(BlockMismatch)
      else
        EpochStartBelow(st.height, c.interval);
        var epochStart := chain[AdjustmentHeight(0, st.height, c.interval)];
        if epochStart.time != st.epochStart then Err(EpochStartMismatch)
        else
          var expected :=
            if (st.height + 1) % c.interval == 0
            then NextWorkRequired(c, anchor.bits, SaturatingSub(anchor.time, epochStart.time))
            else anchor.bits;
          if expected != st.nextTarget then Err(NextTargetMismatch) else Ok(())
  }

  /** Epoch arithmetic: the start of the height's own epoch, and of those after it. */
  lemma {:induction false} EpochStartAt(idx: nat, h: nat, interval: nat)
    requires interval > 0
    ensures AdjustmentHeight(idx, h, interval) == h - h % interval + idx * interval
  {
    assert h == interval * (h / interval) + h % interval;
    assert (h / interval + idx) * interval == h / interval * interval + idx * interval;
  }

  lemma {:induction false} EpochStartBelow(h: nat, interval: nat)
    requires interval > 0
    ensures AdjustmentHeight(0, h, interval) == h - h % interval
  {
    EpochStartAt(0, h, interval);
  }

  lemma {:induction false} ModSuccessor(h: nat, interval: nat)
    requires interval > 0
    ensures (h + 1) % interval == if h % interval + 1 == interval then 0 else h % interval + 1
  {
    var q, r := h / interval, h % interval;
    assert h == interval * q + r;
    if r + 1 == interval {
      assert h + 1 == interval * (q + 1) + 0 by { assert interval * (q + 1) == interval * q + interval; }
      DivModUnique(h + 1, interval, q + 1, 0);
    } else {
      DivModUnique(h + 1, interval, q, r + 1);
    }
  }

  // ---- The two agree at every height ----------------------------------------------------

  ghost predicate Validated(c: Consensus, chain: seq<Header>, st: HeaderState)
    requires ValidParams(c)
  {
    ValidateAnchor(c, c.network, chain, st) == Ok(())
  }

  /** Accepting the chain's next header keeps the state in step with the re-derivation. */
  lemma {:induction false} StepKeepsValidation(c: Consensus, chain: seq<Header>, st: HeaderState)
    requires ValidParams(c) && |st.window| == TIMESTAMPS_FOR_MEDIAN
    requires Validated(c, chain, st) && st.height + 1 < |chain|
    requires Check(c, st, chain[st.height + 1]).Ok?
    ensures Validated(c, chain, Update(c, st, chain[st.height + 1]))
  {
    var h, i := st.height, c.interval;
    EpochStartBelow(h, i);
    EpochStartBelow(h + 1, i);
    ModSuccessor(h, i);
  }

  // ---- Whole runs --------------------------------------------------------------------------

  /** The state after accepting `headers` in turn, if all are accepted. */
  ghost function Follow(c: Consensus, st: HeaderState, headers: seq<Header>): Option<HeaderState>
    requires ValidParams(c) && |st.window| == TIMESTAMPS_FOR_MEDIAN
    decreases |headers|
  {
    if headers == [] then Some(st)
    else if Check(c, st, headers[0]).Err? then None
    else Follow(c, Update(c, st, headers[0]), headers[1..])
  }

  function Times(headers: seq<Header>): (r: seq<nat>)
    ensures |r| == |headers|
  {
    if headers == [] then [] else [headers[0].time] + Times(headers[1..])
  }

  function TotalWork(c: Consensus, headers: seq<Header>): nat {
    if headers == [] then 0 else c.workOf(headers[0]) + TotalWork(c, headers[1..])
  }

  /**
   Bitcoin's difficulty rule, stated on the chain alone: the bits a header at
   `height` must carry. On networks that retarget, the first header of an epoch scales
   them by the time the last epoch took, taken as at least a quarter and at most four
   times the intended one.
   */
  function RequiredBits(c: Consensus, chain: seq<Header>, height: nat): nat
    requires ValidParams(c) && 0 < height <= |chain|
  {
    var last := chain[height - 1];
    if height % c.interval != 0 || !c.retargets then last.bits
    else
      assert height >= c.interval by { EpochStartBelow(height, c.interval); LeastMultiple(height, c.interval); }
      var taken: int := last.time - chain[height - c.interval].time;
      var intended := c.targetTimespan;
      c.scale(last.bits, if 4 * taken < intended then intended / 4
                         else if taken > 4 * intended then 4 * intended
                         else taken)
  }

  lemma {:induction false} LeastMultiple(h: nat, interval: nat)
    requires interval > 0 && h > 0 && h % interval == 0
    ensures h >= interval
  {
  }

  /** A validated state's next target is the signed, clamped one of the difficulty rule. */
  lemma {:induction false} NextTargetIsRequiredBits(c: Consensus, chain: seq<Header>, st: HeaderState)
    requires ValidParams(c) && Validated(c, chain, st)
    ensures st.nextTarget == RequiredBits(c, chain, st.height + 1)
  {
    ValidateAnchorIff(c, c.network, chain, st);
  }

  /**
   What start-up asks of a state: the network is L1's, the block is the one L1 has at
   that height, the epoch began when the first header of its epoch says, and the next
   target is that of the difficulty rule.
   */
  lemma {:induction false} ValidateAnchorIff(c: Consensus, l1Network: nat, chain: seq<Header>, st: HeaderState)
    requires ValidParams(c)
    ensures ValidateAnchor(c, l1Network, chain, st).Ok? <==>
      && l1Network == c.network && st.height < |chain|
      && st.blkid == c.blockHash(chain[st.height])
      && st.epochStart == chain[st.height - st.height % c.interval].time
      && st.nextTarget == RequiredBits(c, chain, st.height + 1)
  {
    if st.height < |chain| {
      var h, i := st.height, c.interval;
      EpochStartBelow(h, i);
      ModSuccessor(h, i);
      if (h + 1) % i == 0 {
        LeastMultiple(h + 1, i);
        assert h - h % i == h + 1 - i;
      }
    }
  }

  /** The header carries the bits of the difficulty rule, links to its parent and meets its target. */
  ghost predicate ValidAt(c: Consensus, chain: seq<Header>, k: nat)
    requires ValidParams(c) && 0 < k < |chain|
  {
    && chain[k].bits == RequiredBits(c, chain, k)
    && chain[k].prev == c.blockHash(chain[k - 1])
    && c.meetsTarget(chain[k])
  }

  /**
   Every accepted run from a validated state: the state stays equal to the
   re-derivation, each header carried the bits of the difficulty rule and linked
   to its parent, work adds up, and the window is the last eleven timestamps.
   */
  lemma {:induction false} AcceptedRun(c: Consensus, chain: seq<Header>, st: HeaderState, n: nat)
    requires ValidParams(c) && |st.window| == TIMESTAMPS_FOR_MEDIAN
    requires Validated(c, chain, st) && st.height + n < |chain|
    requires Follow(c, st, chain[st.height + 1..][..n]).Some?
    ensures var headers := chain[st.height + 1..][..n];
      var end := Follow(c, st, headers).value;
      && end.height == st.height + n
      && Validated(c, chain, end)
      && end.work == st.work + TotalWork(c, headers)
      && end.window == SlideAll(st.window, Times(headers))
      && AcceptedTimes(st.window, Times(headers))
      && forall k: nat :: st.height < k <= st.height + n ==> ValidAt(c, chain, k)
  {
    FollowSums(c, st, chain[st.height + 1..][..n]);
    FollowValidates(c, chain, st, n);
  }

  /**
   And no other run is rejected: from a validated state the chain's next headers are
   all accepted if and only if each carries the bits of the difficulty rule, links to
   its parent, meets its target, and is later than six of the eleven before it.
   */
  lemma {:induction false} AcceptedRunIff(c: Consensus, chain: seq<Header>, st: HeaderState, n: nat)
    requires ValidParams(c) && |st.window| == TIMESTAMPS_FOR_MEDIAN
    requires Validated(c, chain, st) && st.height + n < |chain|
    ensures var headers := chain[st.height + 1..][..n];
      Follow(c, st, headers).Some? <==>
      && (forall k: nat :: st.height < k <= st.height + n ==> ValidAt(c, chain, k))
      && (forall j: nat :: j < n ==> TimelyAt(st.window, Times(headers), j))
  {
    FollowIff(c, chain, st, n);
    AcceptedTimesIff(st.window, Times(chain[st.height + 1..][..n]));
  }

  lemma {:induction false} FollowIff(c: Consensus, chain: seq<Header>, st: HeaderState, n: nat)
    requires ValidParams(c) && |st.window| == TIMESTAMPS_FOR_MEDIAN
    requires Validated(c, chain, st) && st.height + n < |chain|
    ensures var headers := chain[st.height + 1..][..n];
      Follow(c, st, headers).Some? <==>
      && (forall k: nat :: st.height < k <= st.height + n ==> ValidAt(c, chain, k))
      && AcceptedTimes(st.window, Times(headers))
    decreases n
  {
    if n > 0 {
      var headers, h := chain[st.height + 1..][..n], chain[st.height + 1];
      assert headers[0] == h && headers[1..] == chain[st.height + 2..][..n - 1];
      assert Times(headers)[0] == h.time && Times(headers)[1..] == Times(headers[1..]);
      CheckIff(c, chain, st);
      if Check(c, st, h).Ok? {
        StepKeepsValidation(c, chain, st);
        FollowIff(c, chain, Update(c, st, h), n - 1);
      }
    }
  }

  lemma {:induction false} CheckIff(c: Consensus, chain: seq<Header>, st: HeaderState)
    requires ValidParams(c) && |st.window| == TIMESTAMPS_FOR_MEDIAN
    requires Validated(c, chain, st) && st.height + 1 < |chain|
    ensures Check(c, st, chain[st.height + 1]).Ok? <==>
            ValidAt(c, chain, st.height + 1) && chain[st.height + 1].time > MedianOf(st.window)
  {
    NextTargetIsRequiredBits(c, chain, st);
  }

  /** What any accepted headers add up to. */
  lemma {:induction false} FollowSums(c: Consensus, st: HeaderState, headers: seq<Header>)
    requires ValidParams(c) && |st.window| == TIMESTAMPS_FOR_MEDIAN
    requires Follow(c, st, headers).Some?
    ensures var end := Follow(c, st, headers).value;
      && end.height == st.height + |headers|
      && end.work == st.work + TotalWork(c, headers)
      && end.window == SlideAll(st.window, Times(headers))
      && AcceptedTimes(st.window, Times(headers))
    decreases |headers|
  {
    if headers != [] {
      FollowSums(c, Update(c, st, headers[0]), headers[1..]);
      assert Times(headers)[1..] == Times(headers[1..]);
    }
  }

  lemma {:induction false} FollowValidates(c: Consensus, chain: seq<Header>, st: HeaderState, n: nat)
    requires ValidParams(c) && |st.window| == TIMESTAMPS_FOR_MEDIAN
    requires Validated(c, chain, st) && st.height + n < |chain|
    requires Follow(c, st, chain[st.height + 1..][..n]).Some?
    ensures Validated(c, chain, Follow(c, st, chain[st.height + 1..][..n]).value)
    ensures forall k: nat :: st.height < k <= st.height + n ==> ValidAt(c, chain, k)
    decreases n
  {
    if n > 0 {
      FollowStep(c, chain, st, n);
      AcceptedHeader(c, chain, st);
      FollowValidates(c, chain, Update(c, st, chain[st.height + 1]), n - 1);
    }
  }

  lemma {:induction false} FollowStep(c: Consensus, chain: seq<Header>, st: HeaderState, n: nat)
    requires ValidParams(c) && |st.window| == TIMESTAMPS_FOR_MEDIAN && 0 < n && st.height + n < |chain|
    requires Follow(c, st, chain[st.height + 1..][..n]).Some?
    ensures Check(c, st, chain[st.height + 1]).Ok?
    ensures var next := Update(c, st, chain[st.height + 1]);
      && next.height == st.height + 1 && |next.window| == TIMESTAMPS_FOR_MEDIAN
      && Follow(c, st, chain[st.height + 1..][..n]) == Follow(c, next, chain[next.height + 1..][..n - 1])
  {
    var headers := chain[st.height + 1..][..n];
    assert headers[0] == chain[st.height + 1];
    assert headers[1..] == chain[st.height + 2..][..n - 1];
  }

  /** One accepted header: what it must have been, and what it leaves. */
  lemma {:induction false} AcceptedHeader(c: Consensus, chain: seq<Header>, st: HeaderState)
    requires ValidParams(c) && |st.window| == TIMESTAMPS_FOR_MEDIAN
    requires Validated(c, chain, st) && st.height + 1 < |chain| && Check(c, st, chain[st.height + 1]).Ok?
    ensures Validated(c, chain, Update(c, st, chain[st.height + 1]))
    ensures ValidAt(c, chain, st.height + 1)
  {
    StepKeepsValidation(c, chain, st);
    NextTargetIsRequiredBits(c, chain, st);
  }

  /** Median time past over any accepted run: it never falls, and six headers raise it. */
  lemma {:induction false} AcceptedRunRaisesMedian(c: Consensus, chain: seq<Header>, st: HeaderState, n: nat)
    requires ValidParams(c) && |st.window| == TIMESTAMPS_FOR_MEDIAN
    requires Validated(c, chain, st) && st.height + n < |chain|
    requires Follow(c, st, chain[st.height + 1..][..n]).Some?
    ensures var end := Follow(c, st, chain[st.height + 1..][..n]).value;
      && |end.window| == TIMESTAMPS_FOR_MEDIAN
      && MedianOf(st.window) <= MedianOf(end.window)
      && (n >= 6 ==> MedianOf(st.window) < MedianOf(end.window))
      && (n >= TIMESTAMPS_FOR_MEDIAN ==>
            end.window == Times(chain[st.height + 1..][..n])[n - TIMESTAMPS_FOR_MEDIAN..])
  {
    var times := Times(chain[st.height + 1..][..n]);
    AcceptedRun(c, chain, st, n);
    MedianNeverFalls(st.window, times, MedianOf(st.window));
    SlideAllIsLastEleven(st.window, times);
    if n >= 6 {
      SixHeadersRaiseMedian(st.window, times);
    }
    if n >= TIMESTAMPS_FOR_MEDIAN {
      assert (st.window + times)[n..] == times[n - TIMESTAMPS_FOR_MEDIAN..];
    }
  }

  // ---- The state object -----------------------------------------------------------------------

  class HeaderVerificationState {
    var height: nat
    var blkid: Digest
    var nextBlockTarget: nat
    var epochStartTimestamp: nat
    const history: TimestampStore
    var totalWork: nat

    ghost predicate Valid()
      reads this, history
    {
      history.Valid()
    }

    ghost function Value(): HeaderState
      requires Valid()
      reads this, history, history.buffer
    {
      HeaderState(height, blkid, nextBlockTarget, epochStartTimestamp, history.Window(), totalWork)
    }

    constructor (anchor: HeaderState)
      requires |anchor.window| == TIMESTAMPS_FOR_MEDIAN
      ensures Valid() && Value() == anchor
      ensures fresh(history) && fresh(history.buffer)
    {
      height := anchor.height;
      blkid := anchor.blkid;
      nextBlockTarget := anchor.nextTarget;
      epochStartTimestamp := anchor.epochStart;
      totalWork := anchor.work;
      history := new TimestampStore(anchor.window);
    }

    /** Reads the height already advanced to the new block. */
    method NextTarget(c: Consensus, h: Header) returns (target: nat)
      requires ValidParams(c)
      ensures target == if (height + 1) % c.interval != 0 then nextBlockTarget
                        else NextWorkRequired(c, h.bits, SaturatingSub(h.time, epochStartTimestamp))
    {
      var nextHeight := height + 1;
      if nextHeight % c.interval != 0 {
        return nextBlockTarget;
      }
      var timespan := SaturatingSub(h.time, epochStartTimestamp);
      return NextWorkRequired(c, h.bits, timespan);
    }

    method UpdateTimestamps(c: Consensus, timestamp: nat)
      requires ValidParams(c) && Valid()
      modifies this`epochStartTimestamp, history`head, history.buffer
      ensures Valid() && history.buffer == old(history.buffer)
      ensures history.Window() == Slide(old(history.Window()), timestamp)
      ensures epochStartTimestamp == if height % c.interval == 0 then timestamp else old(epochStartTimestamp)
    {
      history.Insert(timestamp);
      if height % c.interval == 0 {
        epochStartTimestamp := timestamp;
      }
    }

    /** Runs the four checks in order; a rejected header changes nothing. */
    method CheckAndUpdate(c: Consensus, h: Header) returns (r: Result<(), L1VerificationError>)
      requires ValidParams(c) && Valid()
      modifies this, history`head, history.buffer
      ensures Valid() && history.buffer == old(history.buffer)
      ensures r == Check(c, old(Value()), h)
      ensures r == Err(ContinuityError) <==> h.prev != old(blkid)
      ensures r == Err(PowMismatch) <==> h.prev == old(blkid) && h.bits != old(nextBlockTarget)
      ensures r == Err(TimestampError) <==>
        h.prev == old(blkid) && h.bits == old(nextBlockTarget) && CountBelow(old(history.Window()), h.time) < 6
      ensures r == Err(PowNotMet) <==>
        && h.prev == old(blkid) && h.bits == old(nextBlockTarget)
        && CountBelow(old(history.Window()), h.time) >= 6 && !c.meetsTarget(h)
      ensures Value() == if r.Ok? then Update(c, old(Value()), h) else old(Value())
    {
      AboveMedianIff(history.Window(), h.time);
      if h.prev != blkid {
        return Err(ContinuityError);
      }
      if h.bits != nextBlockTarget {
        return Err(PowMismatch);
      }
      var median := history.Median();
      if h.time <= median {
        return Err(TimestampError);
      }
      if !c.meetsTarget(h) {
        return Err(PowNotMet);
      }
      var nextHeight := height + 1;
      height, blkid := nextHeight, c.blockHash(h);
      UpdateTimestamps(c, h.time);
      nextBlockTarget := NextTarget(c, h);
      totalWork := totalWork + c.workOf(h);
      return Ok(());
    }
  }
}
