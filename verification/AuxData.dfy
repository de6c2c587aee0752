/**
 Historical manifest hashes as auxiliary data: requested while a block is
 pre-processed, resolved from the manifest MMR, verified against the accumulator
 and read back while the block is processed.
 */
module AuxData {
  import opened Wrappers
  import opened Bitcoin
  import opened Mountains

  type Hash = Digest

  datatype ManifestHashRange = ManifestHashRange(start: nat, end: nat)

  datatype VerifiableManifestHash = VerifiableManifestHash(hash: Hash, proof: MerkleProof)

  datatype AuxError =
    | ManifestHashNotFound(height: nat)
    | MmrProofFailed(index: nat)
    | InvalidMmrProof(at: nat)
    | InvertedManifestRange

  // ---- Collecting ----------------------------------------------------------------------

  class AuxRequestCollector {
    const maxResolvableHeight: nat
    var manifestHashes: seq<ManifestHashRange>

    constructor (bound: nat)
      ensures maxResolvableHeight == bound && manifestHashes == []
    {
      maxResolvableHeight := bound;
      manifestHashes := [];
    }

    /** Keeps the request as it is, or drops it when it is inverted or reaches past the bound. */
    method RequestManifestHashes(start: nat, end: nat)
      modifies this
      ensures manifestHashes == old(manifestHashes) +
        if start <= end <= maxResolvableHeight then [ManifestHashRange(start, end)] else []
      ensures (forall r :: r in old(manifestHashes) ==> r.start <= r.end <= maxResolvableHeight) ==>
              (forall r :: r in manifestHashes ==> r.start <= r.end <= maxResolvableHeight)
    {
      if start > end || end > maxResolvableHeight {
        return;
      }
      manifestHashes := manifestHashes + [ManifestHashRange(start, end)];
    }
  }

  /** What the collector keeps of the first `n` requests. */
  function Collect(bound: nat, requests: seq<ManifestHashRange>, n: nat): seq<ManifestHashRange>
    requires n <= |requests|
  {
    if n == 0 then []
    else Collect(bound, requests, n - 1) +
         if requests[n - 1].start <= requests[n - 1].end <= bound then [requests[n - 1]] else []
  }

  /** Requests made one after the other. */
  method CollectRequests(bound: nat, requests: seq<ManifestHashRange>) returns (ranges: seq<ManifestHashRange>)
    ensures ranges == Collect(bound, requests, |requests|)
  {
    var collector := new AuxRequestCollector(bound);
    for i := 0 to |requests|
      invariant fresh(collector) && collector.maxResolvableHeight == bound
      invariant collector.manifestHashes == Collect(bound, requests, i)
    {
      collector.RequestManifestHashes(requests[i].start, requests[i].end);
    }
    return collector.manifestHashes;
  }

  lemma {:induction false} CollectedAreAdmitted(bound: nat, requests: seq<ManifestHashRange>, n: nat)
    requires n <= |requests|
    ensures forall r :: r in Collect(bound, requests, n) <==> r in requests[..n] && r.start <= r.end <= bound
  {
    if n > 0 {
      CollectedAreAdmitted(bound, requests, n - 1);
      assert requests[..n] == requests[..n - 1] + [requests[n - 1]];
    }
  }

  /** Bounded at the last of `n` heights, all of them within reach are kept. */
  lemma {:induction false} KeptWithin(n: nat, requests: seq<ManifestHashRange>, ranges: seq<ManifestHashRange>)
    requires n > 0 && ranges == Collect(n - 1, requests, |requests|)
    ensures forall r :: r in ranges <==> r in requests && r.start <= r.end < n
  {
    CollectedAreAdmitted(n - 1, requests, |requests|);
    assert requests[..|requests|] == requests;
  }

  /** They are kept in the order of the requests, each as often as it was made. */
  lemma {:induction false} CollectedInOrder(bound: nat, requests: seq<ManifestHashRange>, i: nat, n: nat)
    requires i < n <= |requests|
    ensures var kept, before := Collect(bound, requests, n), |Collect(bound, requests, i)|;
      && Collect(bound, requests, i) <= kept
      && if requests[i].start <= requests[i].end <= bound
         then before < |kept| && kept[before] == requests[i] && |Collect(bound, requests, i + 1)| == before + 1
         else |Collect(bound, requests, i + 1)| == before
  {
    if i + 1 < n {
      CollectedInOrder(bound, requests, i, n - 1);
    }
  }

  // ---- The store -------------------------------------------------------------------------

  /**
   Seeding stores only the peaks of the genesis accumulator. A leaf at or below
   genesis is then there only if it is a peak by itself: the last one, when the
   number of seeded leaves is odd.
   */
  predicate Readable(genesisHeight: nat, index: nat) {
    index > genesisHeight || (index == genesisHeight && genesisHeight % 2 == 0)
  }

  /** That is: above genesis, or a mountain of one among the seeded leaves. */
  lemma {:induction false} ReadableIff(genesisHeight: nat, index: nat)
    ensures Readable(genesisHeight, index) <==>
            index > genesisHeight || MountainOf(genesisHeight + 1, index).size == 1
  {
    if index <= genesisHeight {
      SingleMountainIff(genesisHeight + 1, index);
    }
  }

  /** The MMR as the resolver sees it. */
  datatype ManifestMmr = ManifestMmr(leaves: seq<Hash>, genesisHeight: nat) {

    function GetManifestHash(index: nat): Option<Hash> {
      if Readable(genesisHeight, index) && index < |leaves| then Some(leaves[index]) else None
    }

    function GenerateProofAt(index: nat, atLeafCount: nat): Option<MerkleProof> {
      if Readable(genesisHeight, index) && index < atLeafCount <= |leaves|
      then Some(ProveAt(leaves, atLeafCount, index)) else None
    }
  }

  // ---- Resolving ---------------------------------------------------------------------------

  function RangeHeights(start: nat, end: nat): seq<nat>
    requires start <= end
  {
    seq(end + 1 - start, i requires 0 <= i => start + i)
  }

  /** An inverted range has no heights. */
  function HeightsOf(range: ManifestHashRange): seq<nat> {
    if range.start <= range.end then RangeHeights(range.start, range.end) else []
  }

  /** Every height of the first `n` ranges, range by range, repetitions included. */
  function Requested(ranges: seq<ManifestHashRange>, n: nat): seq<nat>
    requires n <= |ranges|
  {
    if n == 0 then [] else Requested(ranges, n - 1) + HeightsOf(ranges[n - 1])
  }

  /** The first occurrence of each of the first `n` heights, in order. */
  function Distinct(heights: seq<nat>, n: nat): seq<nat>
    requires n <= |heights|
  {
    if n == 0 then []
    else
      var before, h := Distinct(heights, n - 1), heights[n - 1];
      if h in before then before else before + [h]
  }

  /** The heights to resolve: each requested one once, in order of first request. */
  function Wanted(ranges: seq<ManifestHashRange>): seq<nat> {
    var all := Requested(ranges, |ranges|);
    Distinct(all, |all|)
  }

  lemma {:induction false} DistinctIsSet(heights: seq<nat>, n: nat)
    requires n <= |heights|
    ensures forall h :: h in Distinct(heights, n) <==> h in heights[..n]
    ensures forall i, j :: 0 <= i < j < |Distinct(heights, n)| ==> Distinct(heights, n)[i] != Distinct(heights, n)[j]
  {
    if n > 0 {
      DistinctIsSet(heights, n - 1);
      assert heights[..n] == heights[..n - 1] + [heights[n - 1]];
    }
  }

  lemma {:induction false} DistinctGrows(heights: seq<nat>, m: nat, n: nat)
    requires m <= n <= |heights|
    ensures Distinct(heights, m) <= Distinct(heights, n)
  {
    if m < n {
      DistinctGrows(heights, m, n - 1);
    }
  }

  /** Each distinct height stands where its first occurrence puts it. */
  lemma {:induction false} DistinctPlace(heights: seq<nat>, n: nat, k: nat) returns (q: nat)
    requires n <= |heights| && k < |Distinct(heights, n)|
    ensures q < n && heights[q] == Distinct(heights, n)[k] && heights[q] !in heights[..q]
    ensures |Distinct(heights, q)| == k
  {
    if k < |Distinct(heights, n - 1)| {
      q := DistinctPlace(heights, n - 1, k);
    } else {
      q := n - 1;
      DistinctIsSet(heights, q);
    }
  }

  /** The heights to resolve are in the order of their first occurrences. */
  lemma {:induction false} DistinctInOrder(heights: seq<nat>, n: nat, i: nat, j: nat) returns (p: nat, q: nat)
    requires n <= |heights| && i < j < |Distinct(heights, n)|
    ensures p < q < n
    ensures heights[p] == Distinct(heights, n)[i] && heights[p] !in heights[..p]
    ensures heights[q] == Distinct(heights, n)[j] && heights[q] !in heights[..q]
  {
    p := DistinctPlace(heights, n, i);
    q := DistinctPlace(heights, n, j);
    if q <= p {
      DistinctGrows(heights, q, p);
    }
  }

  lemma {:induction false} RequestedGrows(ranges: seq<ManifestHashRange>, m: nat, n: nat)
    requires m <= n <= |ranges|
    ensures Requested(ranges, m) <= Requested(ranges, n)
  {
    if m < n {
      RequestedGrows(ranges, m, n - 1);
    }
  }

  lemma {:induction false} RequestedCovers(ranges: seq<ManifestHashRange>, n: nat, h: nat)
    requires n <= |ranges|
    ensures h in Requested(ranges, n) <==> exists r :: r in ranges[..n] && r.start <= h <= r.end
  {
    if n > 0 {
      RequestedCovers(ranges, n - 1, h);
      HeightsOfRange(ranges[n - 1], h);
      assert ranges[..n] == ranges[..n - 1] + [ranges[n - 1]];
    }
  }

  lemma {:induction false} HeightsOfRange(range: ManifestHashRange, h: nat)
    ensures h in HeightsOf(range) <==> range.start <= h <= range.end
  {
    if range.start <= h <= range.end {
      assert HeightsOf(range)[h - range.start] == h;
    }
  }

  /** Some range asks for the height. */
  ghost predicate Asked(ranges: seq<ManifestHashRange>, h: nat) {
    exists r :: r in ranges && r.start <= h <= r.end
  }

  /** The heights to resolve are those of the ranges, each once. */
  lemma {:induction false} WantedCovers(ranges: seq<ManifestHashRange>)
    ensures forall i, j :: 0 <= i < j < |Wanted(ranges)| ==> Wanted(ranges)[i] != Wanted(ranges)[j]
    ensures forall h :: h in Wanted(ranges) <==> Asked(ranges, h)
  {
    var all := Requested(ranges, |ranges|);
    DistinctIsSet(all, |all|);
    assert all[..|all|] == all && ranges[..|ranges|] == ranges;
    forall h: nat ensures h in Wanted(ranges) <==> Asked(ranges, h) {
      RequestedCovers(ranges, |ranges|, h);
    }
  }

  function ResolveOne(mmr: ManifestMmr, atLeafCount: nat, h: nat): Result<VerifiableManifestHash, AuxError> {
    match mmr.GetManifestHash(h)
    case None => Err(ManifestHashNotFound(h))
    case Some(hash) =>
      match mmr.GenerateProofAt(h, atLeafCount)
      case None => Err(MmrProofFailed(h))
      case Some(proof) => Ok(VerifiableManifestHash(hash, proof))
  }

  type Lookup = nat -> Result<VerifiableManifestHash, AuxError>

  /** Looking heights up in the MMR. */
  function Reader(mmr: ManifestMmr, atLeafCount: nat): Lookup {
    (h: nat) => ResolveOne(mmr, atLeafCount, h)
  }

  /** `r` is the entry of every height in order, or the first failure. */
  ghost predicate Resolution(lookup: Lookup, heights: seq<nat>,
      r: Result<seq<VerifiableManifestHash>, AuxError>)
  {
    match r
    case Ok(entries) =>
      |entries| == |heights| && forall i :: 0 <= i < |heights| ==> lookup(heights[i]) == Ok(entries[i])
    case Err(e) => exists i :: FailsAt(lookup, heights, e, i)
  }

  ghost predicate FailsAt(lookup: Lookup, heights: seq<nat>, e: AuxError, i: nat) {
    && i < |heights| && lookup(heights[i]) == Err(e)
    && forall j :: 0 <= j < i ==> lookup(heights[j]).Ok?
  }

  /** There is only one resolution of a list of heights. */
  lemma {:induction false} ResolutionUnique(lookup: Lookup, heights: seq<nat>,
      r: Result<seq<VerifiableManifestHash>, AuxError>, r': Result<seq<VerifiableManifestHash>, AuxError>)
    requires Resolution(lookup, heights, r) && Resolution(lookup, heights, r')
    ensures r == r'
  {
    if r.Ok? && r'.Ok? {
      forall i | 0 <= i < |heights| ensures r.value[i] == r'.value[i] {
        assert lookup(heights[i]) == Ok(r.value[i]);
      }
      assert r.value == r'.value;
    } else if r.Err? {
      var i :| FailsAt(lookup, heights, r.error, i);
    }
  }

  lemma {:induction false} FailureStays(lookup: Lookup, heights: seq<nat>, whole: seq<nat>, e: AuxError)
    requires heights <= whole && Resolution(lookup, heights, Err(e))
    ensures Resolution(lookup, whole, Err(e))
  {
    var i :| FailsAt(lookup, heights, e, i);
    assert FailsAt(lookup, whole, e, i);
  }

  /** The first `p` heights have been resolved into `resolved`, those in `seen` not again. */
  ghost predicate ResolvedSoFar(lookup: Lookup, all: seq<nat>, p: nat, seen: set<nat>,
      resolved: seq<VerifiableManifestHash>)
  {
    && p <= |all|
    && (forall h :: h in seen <==> h in Distinct(all, p))
    && Resolution(lookup, Distinct(all, p), Ok(resolved))
  }

  /** Ranges in order, each height once: a `seen` set and a growing list. */
  method ResolveDistinct(lookup: Lookup, ranges: seq<ManifestHashRange>)
      returns (r: Result<seq<VerifiableManifestHash>, AuxError>)
    ensures Resolution(lookup, Wanted(ranges), r)
  {
    ghost var all, p: nat := Requested(ranges, |ranges|), 0;
    var resolved: seq<VerifiableManifestHash> := [];
    var seen: set<nat> := {};
    for i := 0 to |ranges|
      invariant p == |Requested(ranges, i)|
      invariant ResolvedSoFar(lookup, all, p, seen, resolved)
    {
      RangePlace(ranges, i);
      var failure;
      failure, seen, resolved, p := ResolveRange(lookup, ranges[i], all, p, seen, resolved);
      if failure.Some? {
        return Err(failure.value);
      }
    }
    return Ok(resolved);
  }

  /** From `p` on, `all` goes through the heights up to `end`. */
  ghost predicate GoesThrough(all: seq<nat>, p: nat, start: nat, end: nat)
    decreases end + 1 - start
  {
    start <= end ==> p < |all| && all[p] == start && GoesThrough(all, p + 1, start + 1, end)
  }

  lemma {:induction false} RangeInPlace(all: seq<nat>, sofar: seq<nat>, range: ManifestHashRange, h: nat)
    requires sofar + HeightsOf(range) <= all && range.start <= h
    ensures GoesThrough(all, |sofar| + (h - range.start), h, range.end)
    decreases range.end + 1 - h
  {
    if h <= range.end {
      var p := |sofar| + (h - range.start);
      assert (sofar + HeightsOf(range))[p] == HeightsOf(range)[h - range.start] == h;
      RangeInPlace(all, sofar, range, h + 1);
    }
  }

  lemma {:induction false} RangePlace(ranges: seq<ManifestHashRange>, i: nat)
    requires i < |ranges|
    ensures GoesThrough(Requested(ranges, |ranges|), |Requested(ranges, i)|, ranges[i].start, ranges[i].end)
    ensures |Requested(ranges, i + 1)| == |Requested(ranges, i)| + |HeightsOf(ranges[i])|
  {
    RequestedGrows(ranges, i + 1, |ranges|);
    RangeInPlace(Requested(ranges, |ranges|), Requested(ranges, i), ranges[i], ranges[i].start);
  }

  /** The heights of one range, skipping those already resolved. */
  method ResolveRange(lookup: Lookup, range: ManifestHashRange, ghost all: seq<nat>,
      ghost p0: nat, seen0: set<nat>, resolved0: seq<VerifiableManifestHash>)
      returns (failure: Option<AuxError>, seen: set<nat>, resolved: seq<VerifiableManifestHash>, ghost p: nat)
    requires GoesThrough(all, p0, range.start, range.end)
    requires ResolvedSoFar(lookup, all, p0, seen0, resolved0)
    ensures failure.None? ==> p == p0 + |HeightsOf(range)| && ResolvedSoFar(lookup, all, p, seen, resolved)
    ensures failure.Some? ==> Resolution(lookup, Distinct(all, |all|), Err(failure.value))
  {
    failure, seen, resolved, p := None, seen0, resolved0, p0;
    var h := range.start;
    while h <= range.end
      invariant failure.None? && range.start <= h && p == p0 + (h - range.start)
      invariant if range.start <= range.end then h <= range.end + 1 else h == range.start
      invariant GoesThrough(all, p, h, range.end)
      invariant ResolvedSoFar(lookup, all, p, seen, resolved)
      decreases range.end + 1 - h
    {
      failure, seen, resolved := ResolveHeight(lookup, h, all, p, seen, resolved);
      if failure.Some? {
        return;
      }
      h, p := h + 1, p + 1;
    }
  }

  method ResolveHeight(lookup: Lookup, h: nat, ghost all: seq<nat>, ghost p: nat,
      seen0: set<nat>, resolved0: seq<VerifiableManifestHash>)
      returns (failure: Option<AuxError>, seen: set<nat>, resolved: seq<VerifiableManifestHash>)
    requires p < |all| && all[p] == h && ResolvedSoFar(lookup, all, p, seen0, resolved0)
    ensures failure.None? ==> ResolvedSoFar(lookup, all, p + 1, seen, resolved)
    ensures failure.Some? ==> Resolution(lookup, Distinct(all, |all|), Err(failure.value))
  {
    failure, seen, resolved := None, seen0, resolved0;
    NextResolved(lookup, all, p, seen, resolved);
    if h !in seen {
      var entry := lookup(h);
      if entry.Err? {
        FailsOverall(lookup, all, p + 1, entry.error);
        return Some(entry.error), seen, resolved;
      }
      seen := seen + {h};
      resolved := resolved + [entry.value];
    }
  }

  lemma {:induction false} FailsOverall(lookup: Lookup, all: seq<nat>, p: nat, e: AuxError)
    requires p <= |all| && Resolution(lookup, Distinct(all, p), Err(e))
    ensures Resolution(lookup, Distinct(all, |all|), Err(e))
  {
    DistinctGrows(all, p, |all|);
    FailureStays(lookup, Distinct(all, p), Distinct(all, |all|), e);
  }

  lemma {:induction false} NextResolved(lookup: Lookup, all: seq<nat>, p: nat, seen: set<nat>,
      resolved: seq<VerifiableManifestHash>)
    requires p < |all| && ResolvedSoFar(lookup, all, p, seen, resolved)
    ensures var h := all[p];
      if h in seen then ResolvedSoFar(lookup, all, p + 1, seen, resolved)
      else match lookup(h)
        case Ok(entry) => ResolvedSoFar(lookup, all, p + 1, seen + {h}, resolved + [entry])
        case Err(e) => Resolution(lookup, Distinct(all, p + 1), Err(e))
  {
    var h, before := all[p], Distinct(all, p);
    if h !in seen && lookup(h).Err? {
      assert FailsAt(lookup, before + [h], lookup(h).error, |before|);
    }
  }

  /** Resolves ranges from the MMR, with proofs as of a leaf count. */
  method ResolveManifestHashes(mmr: ManifestMmr, atLeafCount: nat, ranges: seq<ManifestHashRange>)
      returns (r: Result<seq<VerifiableManifestHash>, AuxError>)
    ensures Resolution(Reader(mmr, atLeafCount), Wanted(ranges), r)
  {
    r := ResolveDistinct(Reader(mmr, atLeafCount), ranges);
  }

  // ---- Verifying and reading ------------------------------------------------------------------

  type Check = (MerkleProof, Hash) -> bool

  /** The heights that entries are for. */
  function Indexes(entries: seq<VerifiableManifestHash>): set<nat> {
    set i | 0 <= i < |entries| :: entries[i].proof.index
  }

  /** `index` has the entries' heights, each with the hash of some entry for it. */
  ghost predicate IndexOf(entries: seq<VerifiableManifestHash>, n: nat, index: map<nat, Hash>)
    requires n <= |entries|
  {
    && index.Keys == (set i | 0 <= i < n :: entries[i].proof.index)
    && forall h :: h in index ==> exists i :: 0 <= i < n && entries[i].proof.index == h && entries[i].hash == index[h]
  }

  /** The loop: every entry is checked, then indexed. */
  method IndexChecked(check: Check, entries: seq<VerifiableManifestHash>) returns (r: Result<map<nat, Hash>, AuxError>)
    ensures r.Ok? <==> forall i :: 0 <= i < |entries| ==> check(entries[i].proof, entries[i].hash)
    ensures r.Ok? ==> IndexOf(entries, |entries|, r.value)
    ensures r.Err? ==> r.error.InvalidMmrProof?
  {
    var index: map<nat, Hash> := map[];
    for i := 0 to |entries|
      invariant forall k :: 0 <= k < i ==> check(entries[k].proof, entries[k].hash)
      invariant IndexOf(entries, i, index)
    {
      var item := entries[i];
      if !check(item.proof, item.hash) {
        return Err(InvalidMmrProof(item.proof.index));
      }
      index := index[item.proof.index := item.hash];
    }
    return Ok(index);
  }

  ghost predicate AllVerify(acc: seq<Hash>, entries: seq<VerifiableManifestHash>) {
    forall i :: 0 <= i < |entries| ==> VerifyLeaf(acc, entries[i].proof, entries[i].hash)
  }

  /** Checks every proof against the accumulator and indexes the hashes by height. */
  method VerifyAndIndexManifestHashes(entries: seq<VerifiableManifestHash>, acc: seq<Hash>)
      returns (r: Result<map<nat, Hash>, AuxError>)
    ensures r.Ok? <==> AllVerify(acc, entries)
    ensures r.Ok? ==> r.value.Keys == Indexes(entries)
    ensures r.Ok? ==> forall h :: h in r.value ==> h < |acc| && r.value[h] == acc[h]
    ensures r.Err? ==> r.error.InvalidMmrProof?
  {
    r := IndexChecked((proof, leaf) => VerifyLeaf(acc, proof, leaf), entries);
    if r.Ok? {
      IndexIsOwn(acc, entries, r.value);
    }
  }

  lemma {:induction false} IndexIsOwn(acc: seq<Hash>, entries: seq<VerifiableManifestHash>, index: map<nat, Hash>)
    requires AllVerify(acc, entries) && IndexOf(entries, |entries|, index)
    ensures forall h :: h in index ==> h < |acc| && index[h] == acc[h]
  {
    forall h | h in index ensures h < |acc| && index[h] == acc[h] {
      var i :| 0 <= i < |entries| && entries[i].proof.index == h && entries[i].hash == index[h];
      VerifyIffOwn(acc, entries[i].proof, entries[i].hash);
    }
  }

  /** The hashes of an inclusive range, in order, or the first one missing. */
  method GetManifestHashes(index: map<nat, Hash>, start: nat, end: nat) returns (r: Result<seq<Hash>, AuxError>)
    ensures start > end ==> r == Err(InvertedManifestRange)
    ensures start <= end ==> (r.Ok? <==> forall h :: start <= h <= end ==> h in index)
    ensures r.Ok? ==> |r.value| == end + 1 - start
    ensures r.Ok? ==> forall i :: 0 <= i < |r.value| ==> start + i in index && r.value[i] == index[start + i]
    ensures r.Err? && start <= end ==>
      exists h :: start <= h <= end && h !in index && r.error == ManifestHashNotFound(h)
  {
    if start > end {
      return Err(InvertedManifestRange);
    }
    var hashes: seq<Hash> := [];
    for h := start to end + 1
      invariant |hashes| == h - start
      invariant forall i :: start <= i < h ==> i in index
      invariant forall i :: 0 <= i < |hashes| ==> hashes[i] == index[start + i]
    {
      if h !in index {
        return Err(ManifestHashNotFound(h));
      }
      hashes := hashes + [index[h]];
    }
    return Ok(hashes);
  }

  // ---- When a block's requests are served ----------------------------------------------------------

  /** Every height asked for is found in the store. */
  ghost predicate Found(mmr: ManifestMmr, atLeafCount: nat, ranges: seq<ManifestHashRange>) {
    forall h: nat :: Asked(ranges, h) ==> ResolveOne(mmr, atLeafCount, h).Ok?
  }

  /** The store has the leaf, and the whole mountain around it, as the accumulator does. */
  ghost predicate Servable(mmr: ManifestMmr, acc: seq<Hash>, h: nat) {
    Readable(mmr.genesisHeight, h) && h < |acc| <= |mmr.leaves| && SameMountain(mmr.leaves, acc, h)
  }

  ghost predicate Serves(mmr: ManifestMmr, acc: seq<Hash>, ranges: seq<ManifestHashRange>) {
    forall h: nat :: Asked(ranges, h) ==> Servable(mmr, acc, h)
  }

  /** A height is servable exactly when it is found and what is found verifies. */
  lemma {:induction false} ServableIff(mmr: ManifestMmr, acc: seq<Hash>, h: nat)
    ensures ResolveOne(mmr, |acc|, h).Ok? <==> Readable(mmr.genesisHeight, h) && h < |acc| <= |mmr.leaves|
    ensures Servable(mmr, acc, h) <==>
      var r := ResolveOne(mmr, |acc|, h);
      r.Ok? && VerifyLeaf(acc, r.value.proof, r.value.hash)
    ensures ResolveOne(mmr, |acc|, h).Ok? ==> ResolveOne(mmr, |acc|, h).value.proof.index == h
  {
    if Readable(mmr.genesisHeight, h) && h < |acc| <= |mmr.leaves| {
      StoredProofVerifiesIff(mmr.leaves, acc, h);
    }
  }

  /**
   With the collector bound at the accumulator's last height, what it keeps of any
   requests is found exactly when each kept one starts at a leaf that can be read.
   */
  lemma {:induction false} CollectedFoundIff(mmr: ManifestMmr, acc: seq<Hash>, requests: seq<ManifestHashRange>)
    requires 0 < |acc| <= |mmr.leaves|
    ensures Found(mmr, |acc|, Collect(|acc| - 1, requests, |requests|)) <==>
            forall r :: r in requests && r.start <= r.end < |acc| ==> Readable(mmr.genesisHeight, r.start)
  {
    var ranges := Collect(|acc| - 1, requests, |requests|);
    KeptWithin(|acc|, requests, ranges);
    FoundIff(mmr, |acc|, requests, ranges);
  }

  lemma {:induction false} FoundIff(mmr: ManifestMmr, n: nat, requests: seq<ManifestHashRange>,
      ranges: seq<ManifestHashRange>)
    requires 0 < n <= |mmr.leaves|
    requires forall r :: r in ranges <==> r in requests && r.start <= r.end < n
    ensures Found(mmr, n, ranges) <==>
            forall r :: r in requests && r.start <= r.end < n ==> Readable(mmr.genesisHeight, r.start)
  {
    forall h: nat | h < n ensures ResolveOne(mmr, n, h).Ok? <==> Readable(mmr.genesisHeight, h) {
    }
    if Found(mmr, n, ranges) {
      forall r | r in ranges ensures Readable(mmr.genesisHeight, r.start) {
        assert Asked(ranges, r.start);
      }
    }
    if forall r :: r in ranges ==> Readable(mmr.genesisHeight, r.start) {
      forall h: nat | Asked(ranges, h) ensures ResolveOne(mmr, n, h).Ok? {
        var r :| r in ranges && r.start <= h <= r.end;
      }
    }
  }

  /** A store in step with the accumulator serves whatever it finds. */
  lemma {:induction false} InStepServes(mmr: ManifestMmr, acc: seq<Hash>, ranges: seq<ManifestHashRange>)
    requires |acc| <= |mmr.leaves| && mmr.leaves[..|acc|] == acc
    ensures Serves(mmr, acc, ranges) <==> Found(mmr, |acc|, ranges)
  {
    forall h: nat ensures Servable(mmr, acc, h) <==> ResolveOne(mmr, |acc|, h).Ok? {
      ServableIff(mmr, acc, h);
      if h < |acc| {
        InStepSame(mmr.leaves, acc, h);
      }
    }
  }

  /** What is found does not depend on the leaves, only on how many there are. */
  lemma {:induction false} FoundElsewhere(mmr: ManifestMmr, own: ManifestMmr, acc: seq<Hash>,
      ranges: seq<ManifestHashRange>)
    requires mmr.genesisHeight == own.genesisHeight && |acc| <= |mmr.leaves| && |acc| <= |own.leaves|
    ensures Found(mmr, |acc|, ranges) <==> Found(own, |acc|, ranges)
  {
    forall h: nat ensures ResolveOne(mmr, |acc|, h).Ok? <==> ResolveOne(own, |acc|, h).Ok? {
    }
  }

  /** As far as leaves at or below `low` go, every mountain asked into is the accumulator's. */
  ghost predicate ServesUpTo(leaves: seq<Hash>, acc: seq<Hash>, low: nat, ranges: seq<ManifestHashRange>) {
    forall h: nat :: Asked(ranges, h) ==> MountainRight(leaves, acc, low, h)
  }

  /** With no leaf above `low`, what is found is served exactly then. */
  lemma {:induction false} ServesIffUpTo(mmr: ManifestMmr, acc: seq<Hash>, low: nat, ranges: seq<ManifestHashRange>)
    requires |acc| == low + 1 <= |mmr.leaves| && Found(mmr, |acc|, ranges)
    ensures Serves(mmr, acc, ranges) <==> ServesUpTo(mmr.leaves, acc, low, ranges)
  {
    forall h: nat | Asked(ranges, h) ensures Servable(mmr, acc, h) <==> MountainRight(mmr.leaves, acc, low, h) {
      ServableIff(mmr, acc, h);
      SameMountainIff(mmr.leaves, acc, low, h);
    }
  }

  lemma {:induction false} ServesUpToKept(leaves: seq<Hash>, leaves': seq<Hash>, acc: seq<Hash>, low: nat,
      ranges: seq<ManifestHashRange>)
    requires ServesUpTo(leaves, acc, low, ranges)
    requires |leaves| <= |leaves'| && forall i :: 0 <= i < |leaves| && i <= low ==> leaves'[i] == leaves[i]
    ensures ServesUpTo(leaves', acc, low, ranges)
  {
    forall h: nat | Asked(ranges, h) ensures MountainRight(leaves', acc, low, h) {
      assert MountainRight(leaves, acc, low, h);
    }
  }

  lemma {:induction false} ServesUpToGrows(leaves: seq<Hash>, acc: seq<Hash>, low: nat, ranges: seq<ManifestHashRange>)
    requires ServesUpTo(leaves, acc, low, ranges)
    requires low + 1 < |leaves| && low + 1 < |acc| && leaves[low + 1] == acc[low + 1]
    ensures ServesUpTo(leaves, acc, low + 1, ranges)
  {
    forall h: nat | Asked(ranges, h) ensures MountainRight(leaves, acc, low + 1, h) {
      assert MountainRight(leaves, acc, low, h);
    }
  }

  /** With one stale leaf, the requests found are served exactly when none is for a height of its mountain. */
  lemma {:induction false} StaleLeafServesIff(mmr: ManifestMmr, acc: seq<Hash>, ranges: seq<ManifestHashRange>,
      at: nat, leaf: Hash)
    requires at < |acc| <= |mmr.leaves| && leaf != acc[at] && mmr.leaves[..|acc|] == acc[at := leaf]
    requires Found(mmr, |acc|, ranges)
    ensures Serves(mmr, acc, ranges) <==>
      forall h: nat :: Asked(ranges, h) ==> h < |acc| && MountainOf(|acc|, h) != MountainOf(|acc|, at)
  {
    forall h: nat | Asked(ranges, h)
      ensures h < |acc| && (Servable(mmr, acc, h) <==> MountainOf(|acc|, h) != MountainOf(|acc|, at))
    {
      ServableIff(mmr, acc, h);
      OneWrongLeaf(acc, mmr.leaves, at, leaf, h);
    }
  }

  /**
   The whole path, over any store: what was collected is resolved, verified and
   indexed. It succeeds exactly when the store serves every height asked for, and
   then the index holds those heights, each with the accumulator's leaf; a failure
   is one of the proofs exactly when everything was found.
   */
  method ServeRequests(mmr: ManifestMmr, acc: seq<Hash>, ranges: seq<ManifestHashRange>)
      returns (index: Result<map<nat, Hash>, AuxError>)
    ensures index.Ok? <==> Serves(mmr, acc, ranges)
    ensures index.Err? ==> (index.error.InvalidMmrProof? <==> Found(mmr, |acc|, ranges))
    ensures index.Ok? ==> forall h :: h in index.value <==> Asked(ranges, h)
    ensures index.Ok? ==> forall h :: h in index.value ==> h < |acc| && index.value[h] == acc[h]
  {
    var resolved := ResolveFor(mmr, acc, ranges);
    if resolved.Err? {
      return Err(resolved.error);
    }
    index := VerifyAndIndexManifestHashes(resolved.value, acc);
  }

  method ResolveFor(mmr: ManifestMmr, acc: seq<Hash>, ranges: seq<ManifestHashRange>)
      returns (r: Result<seq<VerifiableManifestHash>, AuxError>)
    ensures r.Ok? <==> Found(mmr, |acc|, ranges)
    ensures r.Err? ==> !r.error.InvalidMmrProof? && !Serves(mmr, acc, ranges)
    ensures r.Ok? ==> (AllVerify(acc, r.value) <==> Serves(mmr, acc, ranges))
    ensures r.Ok? ==> forall h: nat :: h in Indexes(r.value) <==> Asked(ranges, h)
  {
    r := ResolveManifestHashes(mmr, |acc|, ranges);
    WantedCovers(ranges);
    ResolutionFinds(mmr, acc, ranges, Wanted(ranges), r);
    if r.Ok? {
      EntriesServe(mmr, acc, ranges, Wanted(ranges), r.value);
    }
  }

  lemma {:induction false} ResolutionFinds(mmr: ManifestMmr, acc: seq<Hash>, ranges: seq<ManifestHashRange>,
      heights: seq<nat>,
      r: Result<seq<VerifiableManifestHash>, AuxError>)
    requires Resolution(Reader(mmr, |acc|), heights, r) && forall h :: h in heights <==> Asked(ranges, h)
    ensures r.Ok? <==> Found(mmr, |acc|, ranges)
    ensures r.Err? ==> !r.error.InvalidMmrProof? && !Serves(mmr, acc, ranges)
  {
    if r.Ok? {
      forall h | Asked(ranges, h) ensures ResolveOne(mmr, |acc|, h).Ok? {
        assert h in heights;
      }
    } else {
      var i: nat :| FailsAt(Reader(mmr, |acc|), heights, r.error, i);
      assert heights[i] in heights && Asked(ranges, heights[i]);
      ServableIff(mmr, acc, heights[i]);
    }
  }

  lemma {:induction false} EntriesServe(mmr: ManifestMmr, acc: seq<Hash>, ranges: seq<ManifestHashRange>,
      heights: seq<nat>,
      entries: seq<VerifiableManifestHash>)
    requires Resolution(Reader(mmr, |acc|), heights, Ok(entries)) && forall h :: h in heights <==> Asked(ranges, h)
    ensures AllVerify(acc, entries) <==> Serves(mmr, acc, ranges)
    ensures forall h: nat :: h in Indexes(entries) <==> Asked(ranges, h)
  {
    forall i | 0 <= i < |entries|
      ensures entries[i].proof.index == heights[i] && Asked(ranges, heights[i])
      ensures VerifyLeaf(acc, entries[i].proof, entries[i].hash) <==> Servable(mmr, acc, heights[i])
    {
      assert heights[i] in heights && ResolveOne(mmr, |acc|, heights[i]) == Ok(entries[i]);
      ServableIff(mmr, acc, heights[i]);
    }
    forall h | Asked(ranges, h) ensures exists i :: 0 <= i < |entries| && heights[i] == h {
      assert h in heights;
    }
  }

  /** Reading any requested range from the index gives the accumulator's leaves, in order. */
  method ReadBack(acc: seq<Hash>, index: map<nat, Hash>, start: nat, end: nat) returns (answer: seq<Hash>)
    requires start <= end < |acc| && forall h :: start <= h <= end ==> h in index
    requires forall h :: h in index ==> h < |acc| && index[h] == acc[h]
    ensures answer == acc[start..end + 1]
  {
    var read := GetManifestHashes(index, start, end);
    answer := read.value;
    assert forall i :: 0 <= i < |answer| ==> answer[i] == acc[start + i];
  }

  /** One answer to each range: the accumulator's leaves from its start to its end. */
  ghost predicate Answered(acc: seq<Hash>, ranges: seq<ManifestHashRange>, answers: seq<seq<Hash>>) {
    && |answers| == |ranges|
    && forall i :: 0 <= i < |ranges| ==>
         && ranges[i].start <= ranges[i].end < |acc|
         && answers[i] == acc[ranges[i].start..ranges[i].end + 1]
  }

  /**
   From requests to answers: collected within the accumulator's heights, resolved,
   verified, indexed, and each kept range read back. It succeeds exactly when the
   store serves what was kept; over a store in step, exactly when every request that
   is kept starts at a leaf that can be read.
   */
  method AnswerRequests(mmr: ManifestMmr, acc: seq<Hash>, requests: seq<ManifestHashRange>)
      returns (answers: Result<seq<seq<Hash>>, AuxError>)
    requires acc != []
    ensures answers.Ok? <==> Serves(mmr, acc, Collect(|acc| - 1, requests, |requests|))
    ensures answers.Ok? ==> Answered(acc, Collect(|acc| - 1, requests, |requests|), answers.value)
    ensures answers.Ok? ==>
      forall r :: r in requests && r.start <= r.end < |acc| ==> acc[r.start..r.end + 1] in answers.value
    ensures |acc| <= |mmr.leaves| && mmr.leaves[..|acc|] == acc ==>
      (answers.Ok? <==>
        forall r :: r in requests && r.start <= r.end < |acc| ==> Readable(mmr.genesisHeight, r.start))
  {
    var ranges := CollectRequests(|acc| - 1, requests);
    if |acc| <= |mmr.leaves| && mmr.leaves[..|acc|] == acc {
      InStepServes(mmr, acc, ranges);
      CollectedFoundIff(mmr, acc, requests);
    }
    var index := ServeRequests(mmr, acc, ranges);
    if index.Err? {
      return Err(index.error);
    }
    KeptWithin(|acc|, requests, ranges);
    var read := ReadAll(acc, index.value, ranges);
    AllAnswered(acc, requests, ranges, read);
    return Ok(read);
  }

  lemma {:induction false} AllAnswered(acc: seq<Hash>, requests: seq<ManifestHashRange>, ranges: seq<ManifestHashRange>,
      answers: seq<seq<Hash>>)
    requires Answered(acc, ranges, answers)
    requires forall r :: r in ranges <==> r in requests && r.start <= r.end < |acc|
    ensures forall r :: r in requests && r.start <= r.end < |acc| ==> acc[r.start..r.end + 1] in answers
  {
    forall r | r in requests && r.start <= r.end < |acc| ensures acc[r.start..r.end + 1] in answers {
      var i :| 0 <= i < |ranges| && ranges[i] == r;
      assert answers[i] == acc[r.start..r.end + 1];
    }
  }

  method ReadAll(acc: seq<Hash>, index: map<nat, Hash>, ranges: seq<ManifestHashRange>)
      returns (answers: seq<seq<Hash>>)
    requires forall r :: r in ranges ==> r.start <= r.end < |acc|
    requires forall h :: Asked(ranges, h) ==> h in index
    requires forall h :: h in index ==> h < |acc| && index[h] == acc[h]
    ensures Answered(acc, ranges, answers)
  {
    answers := [];
    for i := 0 to |ranges|
      invariant Answered(acc, ranges[..i], answers)
    {
      var r := ranges[i];
      assert forall h: nat :: r.start <= h <= r.end ==> Asked(ranges, h);
      var answer := ReadBack(acc, index, r.start, r.end);
      answers := answers + [answer];
    }
    assert ranges[..|ranges|] == ranges;
  }
}
