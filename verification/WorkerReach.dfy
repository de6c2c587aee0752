/**
 Exactly which blocks the worker can still bring in, in any continuation whatever.
 */
module WorkerReach {
  import opened Wrappers
  import opened Sync
  import opened AuxData
  import opened Mountains
  import opened Worker
  import opened WorkerSafety
  import opened WorkerMmr
  import opened WorkerProgress
  import opened WorkerAgreement

  // ---- A wrong leaf stays wrong --------------------------------------------------------------

  /** Leaf `i` is not the one on the chain of the anchored block `b`. */
  ghost predicate WrongLeaf(cfg: Config, st: Store, b: Commitment, i: nat) {
    && b in st.anchors && Fold(cfg, b).Some?
    && i < |Fold(cfg, b).value.anchor.acc| && i < |st.mmr|
    && st.mmr[i] != Fold(cfg, b).value.anchor.acc[i]
  }

  /** The chain of an anchored block has the leaf of no block that is not anchored. */
  lemma {:induction false} UnanchoredLeafIsForeign(cfg: Config, st: Store, b: Commitment, c: Commitment)
    requires ValidConfig(cfg) && HashNamesBlock(cfg) && StoreInv(cfg, st)
    requires b in st.anchors && c !in st.anchors && GenesisHeight(cfg) < c.height <= b.height
    requires Fold(cfg, c).Some? && Fold(cfg, c).value.record.Some?
    ensures |Fold(cfg, b).value.anchor.acc| == b.height + 1
    ensures Fold(cfg, b).value.anchor.acc[c.height] != cfg.hash(Fold(cfg, c).value.record.value.manifest)
  {
    AccumulatorIsAncestry(cfg, b, c.height);
    AncestorsStored(cfg, st, b, c.height);
    FoldShape(cfg, c);
    FoldShape(cfg, AncestorAt(cfg, b, c.height).value);
  }

  lemma {:induction false} LeafWriteKeepsWrong(cfg: Config, st: Store, mmr: seq<Hash>, c: Commitment, b: Commitment,
      i: nat)
    requires ValidConfig(cfg) && HashNamesBlock(cfg) && StoreInv(cfg, st) && WrongLeaf(cfg, st, b, i)
    requires c !in st.anchors && Fold(cfg, c).Some? && Fold(cfg, c).value.record.Some?
    requires PutLeaf(cfg, st.mmr, c.height, cfg.hash(Fold(cfg, c).value.record.value.manifest)) == Some(mmr)
    ensures WrongLeaf(cfg, st.(mmr := mmr), b, i)
  {
    FoldShape(cfg, b);
    if i == c.height {
      UnanchoredLeafIsForeign(cfg, st, b, c);
    }
  }

  /** The block being applied, until its anchor is written. */
  ghost predicate Unanchored(cfg: Config, s: Sys) {
    s.phase.Applying? && !s.phase.stage.AnchorWritten? ==>
      && s.phase.todo != [] && s.phase.todo[0] !in s.store.anchors
      && RunInv(cfg, s.phase.todo[0], s.phase.run)
      && ParentOf(cfg, s.phase.todo[0]) == Ok(s.phase.mem.tip) && Fold(cfg, s.phase.mem.tip).Some?
  }

  lemma {:induction false} InvIsUnanchored(cfg: Config, s: Sys)
    requires ValidConfig(cfg) && Inv(cfg, s)
    ensures Unanchored(cfg, s)
  {
  }

  lemma {:induction false} WriteKeepsWrong(cfg: Config, s: Sys, s': Sys, b: Commitment, i: nat)
    requires ValidConfig(cfg) && HashNamesBlock(cfg) && StoreInv(cfg, s.store) && Unanchored(cfg, s)
    requires s.phase.Applying? && s.phase.todo != [] && NextWrite(cfg, s) == Some(s') && WrongLeaf(cfg, s.store, b, i)
    ensures WrongLeaf(cfg, s'.store, b, i)
  {
    if s.phase.stage.ManifestWritten? {
      FoldShape(cfg, s.phase.todo[0]);
      LeafWriteKeepsWrong(cfg, s.store, s'.store.mmr, s.phase.todo[0], b, i);
    }
  }

  lemma {:induction false} BootKeepsWrong(cfg: Config, s: Sys, s': Sys, b: Commitment, i: nat)
    requires s.phase.Booting? && NextBoot(cfg, s) == Some(s') && WrongLeaf(cfg, s.store, b, i)
    ensures WrongLeaf(cfg, s'.store, b, i)
  {
  }

  /** Only start-up stages and record writes touch the stores. */
  lemma {:induction false} StoreUntouched(cfg: Config, s: Sys, e: Event, s': Sys)
    requires Next(cfg, s, e) == Some(s') && !e.BootStep? && !e.Write?
    ensures s'.store == s.store
  {
  }

  lemma {:induction false} StepKeepsWrong(cfg: Config, s: Sys, e: Event, s': Sys, b: Commitment, i: nat)
    requires ValidConfig(cfg) && HashNamesBlock(cfg) && StoreInv(cfg, s.store) && Unanchored(cfg, s)
    requires Next(cfg, s, e) == Some(s') && WrongLeaf(cfg, s.store, b, i)
    ensures WrongLeaf(cfg, s'.store, b, i)
  {
    match e
    case BootStep => BootKeepsWrong(cfg, s, s', b, i);
    case Write => WriteKeepsWrong(cfg, s, s', b, i);
    case _ => StoreUntouched(cfg, s, e, s');
  }

  // ---- What is applied was served -----------------------------------------------------------------

  /** Until its anchor is written, the leaves still serve the block being applied. */
  ghost predicate StillServed(cfg: Config, s: Sys) {
    s.phase.Applying? && !s.phase.stage.AnchorWritten? ==>
      s.phase.todo != [] && !Unserved(cfg, s.store.mmr, s.phase.todo[0])
  }

  lemma {:induction false} StepKeepsServed(cfg: Config, s: Sys, e: Event, s': Sys)
    requires ValidConfig(cfg) && Inv(cfg, s) && StillServed(cfg, s) && Next(cfg, s, e) == Some(s')
    ensures StillServed(cfg, s')
  {
    match e
    case Execute => ExecuteIff(cfg, s.store, s.phase.mem, s.phase.todo[0]);
    case Write =>
      if s.phase.stage.ManifestWritten? {
        InvIsUnanchored(cfg, s);
        FoldShape(cfg, s.phase.todo[0]);
        LeafAbove(cfg, s.store.mmr, s'.store.mmr, s.phase.todo[0], s.phase.mem.tip);
      }
    case _ =>
  }

  /** A block's own leaf is above all it can ask for. */
  lemma {:induction false} LeafAbove(cfg: Config, mmr: seq<Hash>, mmr': seq<Hash>, c: Commitment, parent: Commitment)
    requires ValidConfig(cfg) && Fold(cfg, c).Some? && Fold(cfg, c).value.record.Some?
    requires ParentOf(cfg, c) == Ok(parent) && Fold(cfg, parent).Some? && ServesChild(cfg, mmr, c, parent)
    requires PutLeaf(cfg, mmr, c.height, cfg.hash(Fold(cfg, c).value.record.value.manifest)) == Some(mmr')
    ensures ServesChild(cfg, mmr', c, parent)
  {
    FoldShape(cfg, c);
    FoldShape(cfg, parent);
    ServedIffRight(cfg, mmr, c, parent);
    RightKept(cfg, mmr, mmr', parent.height, c);
    ServedIffRight(cfg, mmr', c, parent);
  }

  lemma {:induction false} RunKeepsServed(cfg: Config, events: seq<Event>)
    requires ValidConfig(cfg) && Run(cfg, events).Some?
    ensures StillServed(cfg, Run(cfg, events).value)
  {
    if events != [] {
      var before := events[..|events| - 1];
      RunKeepsServed(cfg, before);
      RunKeepsInv(cfg, before);
      StepKeepsServed(cfg, Run(cfg, before).value, events[|events| - 1], Run(cfg, events).value);
    }
  }

  // ---- A block that asks into a wrong mountain --------------------------------------------------------

  /** `c` asks for a height in the mountain of leaf `i`. */
  ghost predicate AsksInto(cfg: Config, c: Commitment, i: nat) {
    && ParentOf(cfg, c).Ok? && Fold(cfg, ParentOf(cfg, c).value).Some?
    && var f := Fold(cfg, ParentOf(cfg, c).value).value;
       exists h: nat :: Asked(Requests(cfg, f.next, f.anchor, c.blkid), h) && InMountain(|f.anchor.acc|, h, i)
  }

  predicate InMountain(n: nat, h: nat, i: nat) {
    h < n && MountainOf(n, h).Has(i)
  }

  /** `c` is not anchored and asks into a mountain with a leaf that is wrong for it and for the anchored `b`. */
  ghost predicate Spoilt(cfg: Config, st: Store, b: Commitment, i: nat, c: Commitment) {
    && WrongLeaf(cfg, st, b, i) && AsksInto(cfg, c, i)
    && c !in st.anchors && c.height > GenesisHeight(cfg)
    && i < |Fold(cfg, ParentOf(cfg, c).value).value.anchor.acc|
    && Fold(cfg, ParentOf(cfg, c).value).value.anchor.acc[i] == Fold(cfg, b).value.anchor.acc[i]
  }

  lemma {:induction false} SpoiltIsUnserved(cfg: Config, st: Store, b: Commitment, i: nat, c: Commitment)
    requires Spoilt(cfg, st, b, i, c)
    ensures Unserved(cfg, st.mmr, c)
  {
    var f := Fold(cfg, ParentOf(cfg, c).value).value;
    var ranges := Requests(cfg, f.next, f.anchor, c.blkid);
    var h: nat :| Asked(ranges, h) && InMountain(|f.anchor.acc|, h, i);
    if Servable(View(cfg, st.mmr), f.anchor.acc, h) {
      SameMountainIff(st.mmr, f.anchor.acc, |f.anchor.acc|, h);
    }
  }

  lemma {:induction false} StepStaysSpoilt(cfg: Config, s: Sys, e: Event, s': Sys, b: Commitment, i: nat, c: Commitment)
    requires ValidConfig(cfg) && HashNamesBlock(cfg) && StoreInv(cfg, s.store) && Unanchored(cfg, s)
    requires StillServed(cfg, s) && Next(cfg, s, e) == Some(s') && Spoilt(cfg, s.store, b, i, c)
    ensures Spoilt(cfg, s'.store, b, i, c)
  {
    SpoiltIsUnserved(cfg, s.store, b, i, c);
    StepKeepsWrong(cfg, s, e, s', b, i);
    if c in s'.store.anchors {
      AnchorsAfter(cfg, s, e, s', c);
    }
  }

  /** A step anchors genesis or the block being applied. */
  lemma {:induction false} AnchorsAfter(cfg: Config, s: Sys, e: Event, s': Sys, c: Commitment)
    requires ValidConfig(cfg) && Unanchored(cfg, s) && Next(cfg, s, e) == Some(s')
    requires c in s'.store.anchors && c !in s.store.anchors && c != cfg.genesis.block
    ensures s.phase.Applying? && !s.phase.stage.AnchorWritten? && c == s.phase.todo[0]
  {
    match e
    case BootStep => assert false;
    case Write =>
      FoldShape(cfg, s.phase.todo[0]);
    case _ =>
      StoreUntouched(cfg, s, e, s');
      assert false;
  }

  lemma {:induction false} RunStaysSpoilt(cfg: Config, events: seq<Event>, more: seq<Event>,
      b: Commitment, i: nat, c: Commitment)
    requires ValidConfig(cfg) && HashNamesBlock(cfg) && events <= more && Run(cfg, more).Some?
    requires Run(cfg, events).Some? && Spoilt(cfg, Run(cfg, events).value.store, b, i, c)
    ensures Spoilt(cfg, Run(cfg, more).value.store, b, i, c)
    decreases |more|
  {
    if more != events {
      var n := |more| - 1;
      var before := more[..n];
      assert events <= before;
      RunStaysSpoilt(cfg, events, before, b, i, c);
      ReachedStep(cfg, before);
      StepStaysSpoilt(cfg, Run(cfg, before).value, more[n], Run(cfg, more).value, b, i, c);
    }
  }

  lemma {:induction false} ReachedStep(cfg: Config, events: seq<Event>)
    requires ValidConfig(cfg) && Run(cfg, events).Some?
    ensures var s := Run(cfg, events).value; StoreInv(cfg, s.store) && Unanchored(cfg, s) && StillServed(cfg, s)
  {
    RunKeepsInv(cfg, events);
    RunKeepsServed(cfg, events);
    InvIsUnanchored(cfg, Run(cfg, events).value);
  }

  /** A block once spoilt is never anchored, nor any block above it, whatever is submitted and restarted. */
  lemma {:induction false} SpoiltForEver(cfg: Config, events: seq<Event>, more: seq<Event>, b: Commitment, i: nat,
      c: Commitment)
    requires ValidConfig(cfg) && HashNamesBlock(cfg) && events <= more && Run(cfg, more).Some?
    requires Run(cfg, events).Some? && Spoilt(cfg, Run(cfg, events).value.store, b, i, c)
    ensures forall d :: d in Run(cfg, more).value.store.anchors ==> !AncestorOrSelf(cfg, c, d)
  {
    RunStaysSpoilt(cfg, events, more, b, i, c);
    RunKeepsInv(cfg, more);
    NothingAbove(cfg, Run(cfg, more).value.store, c);
  }

  lemma {:induction false} NothingAbove(cfg: Config, st: Store, c: Commitment)
    requires ValidConfig(cfg) && StoreInv(cfg, st) && c !in st.anchors && c.height >= GenesisHeight(cfg)
    ensures forall d :: d in st.anchors ==> !AncestorOrSelf(cfg, c, d)
  {
    forall d | d in st.anchors ensures !AncestorOrSelf(cfg, c, d) {
      if AncestorOrSelf(cfg, c, d) {
        AncestorNotAbove(cfg, d, c.height);
        AncestorsStored(cfg, st, d, c.height);
      }
    }
  }

  // ---- Coming back ------------------------------------------------------------------------------------

  lemma {:induction false} LatestAmong(anchors: map<Commitment, Anchor>, keys: set<Commitment>)
      returns (latest: Commitment)
    requires keys != {} && keys <= anchors.Keys
    ensures latest in keys
    ensures forall k :: k in keys ==> k.height < latest.height || (k.height == latest.height && k.blkid <= latest.blkid)
    decreases keys
  {
    var first :| first in keys;
    var rest := keys - {first};
    assert forall k :: k in keys ==> k == first || k in rest;
    latest := first;
    if rest != {} {
      var other := LatestAmong(anchors, rest);
      if latest.height < other.height || (latest.height == other.height && latest.blkid <= other.blkid) {
        latest := other;
      }
    }
  }

  lemma {:induction false} BootChangesNothing(cfg: Config, s: Sys, s': Sys)
    requires ValidConfig(cfg) && Inv(cfg, s) && s.phase.Booting? && s.phase.latest.Some?
    requires NextBoot(cfg, s) == Some(s')
    ensures s'.store == s.store
  {
  }

  lemma {:induction false} BootOut(cfg: Config, events: seq<Event>) returns (more: seq<Event>)
    requires ValidConfig(cfg) && Run(cfg, events).Some?
    requires Run(cfg, events).value.phase.Booting? && Run(cfg, events).value.phase.latest.Some?
    ensures events <= more && Run(cfg, more).Some?
    ensures Run(cfg, more).value.phase.Idle? && Run(cfg, more).value.store == Run(cfg, events).value.store
    decreases StagesLeft(Run(cfg, events).value.phase.boot)
  {
    BootAdvances(cfg, events);
    more := RunBoot(cfg, events);
    assert Run(cfg, more).value.store == Run(cfg, events).value.store by {
      RunKeepsInv(cfg, events);
      BootChangesNothing(cfg, Run(cfg, events).value, Run(cfg, more).value);
    }
    if Run(cfg, more).value.phase.Booting? {
      more := BootOut(cfg, more);
    }
  }

  /** Once anything is anchored, a crash and a restart bring the worker back to idle over the same stores. */
  lemma {:induction false} ComeBack(cfg: Config, events: seq<Event>) returns (more: seq<Event>)
    requires ValidConfig(cfg) && Run(cfg, events).Some? && Run(cfg, events).value.store.anchors != map[]
    ensures events <= more && Run(cfg, more).Some?
    ensures Run(cfg, more).value.phase.Idle? && Run(cfg, more).value.store == Run(cfg, events).value.store
  {
    var anchors := Run(cfg, events).value.store.anchors;
    assert anchors.Keys != {};
    var latest := LatestAmong(anchors, anchors.Keys);
    var down := RunSnoc(cfg, events, Crash);
    var booting := RunSnoc(cfg, down, Boot(Some(latest)));
    more := BootOut(cfg, booting);
  }

  // ---- The exact condition ---------------------------------------------------------------------------

  ghost predicate Anchors(cfg: Config, events: seq<Event>, c: Commitment) {
    Run(cfg, events).Some? && c in Run(cfg, events).value.store.anchors
  }

  /** Some continuation of the run, whatever happens in it, ends with `c` anchored. */
  ghost predicate CanAnchor(cfg: Config, events: seq<Event>, c: Commitment) {
    exists more :: events <= more && Anchors(cfg, more, c)
  }

  lemma {:induction false} ClearCanAnchor(cfg: Config, events: seq<Event>, target: Commitment)
    requires ValidConfig(cfg) && Run(cfg, events).Some? && Run(cfg, events).value.store.anchors != map[]
    requires cfg.heightOf(target.blkid) == Some(target.height) && Clear(cfg, Run(cfg, events).value.store, target)
    ensures CanAnchor(cfg, events, target)
  {
    var more := ComeBack(cfg, events);
    if target !in Run(cfg, more).value.store.anchors {
      more := SubmitReachesTarget(cfg, more, target);
    }
    assert Anchors(cfg, more, target);
  }

  /** A leaf that is wrong for a block above the base is wrong for the base. */
  lemma {:induction false} WrongBelowPath(cfg: Config, st: Store, base: Commitment, c: Commitment) returns (i: nat)
    requires ValidConfig(cfg) && base in st.anchors && Fold(cfg, base).Some? && base.height < |st.mmr|
    requires c !in st.anchors && Fold(cfg, c).Some? && c.height > GenesisHeight(cfg)
    requires ParentOf(cfg, c).Ok? && AncestorOrSelf(cfg, base, ParentOf(cfg, c).value)
    requires !RightUpTo(cfg, st.mmr, base.height, c)
    ensures Spoilt(cfg, st, base, i, c)
  {
    ChainBelow(cfg, base, c);
    var f := Fold(cfg, ParentOf(cfg, c).value).value;
    var acc := f.anchor.acc;
    var h: nat :|
      Asked(Requests(cfg, f.next, f.anchor, c.blkid), h) && !MountainRight(st.mmr, acc, base.height, h);
    i :| MountainOf(|acc|, h).Has(i) && i <= base.height && st.mmr[i] != acc[i];
    assert InMountain(|acc|, h, i);
  }

  /** A block that folds and is not clear has a spoilt block on its path. */
  lemma {:induction false} NotClearIsSpoilt(cfg: Config, st: Store, target: Commitment)
      returns (b: Commitment, i: nat, c: Commitment)
    requires ValidConfig(cfg) && StoreInv(cfg, st) && st.anchors != map[]
    requires Fold(cfg, target).Some? && !Clear(cfg, st, target)
    ensures Spoilt(cfg, st, b, i, c) && AncestorOrSelf(cfg, c, target)
  {
    PlanSucceeds(cfg, st.anchors, target, target);
    PlanIsPath(cfg, st.anchors, target);
    var plan := Plan(cfg, st.anchors, target).value;
    b := plan.baseBlock;
    var k :| 0 <= k < |plan.pending| && !RightUpTo(cfg, st.mmr, b.height, plan.pending[k]);
    c := plan.pending[k];
    OnPath(cfg, st.anchors, target, k);
    i := WrongBelowPath(cfg, st, b, c);
  }

  /**
   In every reachable state with anything anchored, and for every block that L1
   knows: some continuation anchors it if and only if its chain folds and, up to its
   nearest anchored ancestor, the leaves are right for every block above that one.
   */
  lemma {:induction false} AnchoredIff(cfg: Config, events: seq<Event>, target: Commitment)
    requires ValidConfig(cfg) && HashNamesBlock(cfg)
    requires Run(cfg, events).Some? && Run(cfg, events).value.store.anchors != map[]
    requires cfg.heightOf(target.blkid) == Some(target.height)
    ensures CanAnchor(cfg, events, target) <==> Clear(cfg, Run(cfg, events).value.store, target)
  {
    var st := Run(cfg, events).value.store;
    if Clear(cfg, st, target) {
      ClearCanAnchor(cfg, events, target);
    } else if CanAnchor(cfg, events, target) {
      var more :| events <= more && Anchors(cfg, more, target);
      RunKeepsInv(cfg, more);
      RunKeepsInv(cfg, events);
      var b, i, c := NotClearIsSpoilt(cfg, st, target);
      SpoiltForEver(cfg, events, more, b, i, c);
      assert false;
    }
  }
}
