/**
 A stale leaf: how the worker comes by one, and exactly which blocks it can then no
 longer bring in.
 */
module WorkerStale {
  import opened Wrappers
  import opened Sync
  import opened Registry
  import opened Bitcoin
  import opened AuxData
  import opened Mountains
  import opened Worker
  import opened WorkerSafety
  import opened WorkerMmr
  import opened WorkerProgress
  import opened WorkerAgreement
  import opened WorkerReach

  // ---- The next block on an anchored one ------------------------------------------------------

  predicate Known(cfg: Config, c: Commitment) {
    cfg.heightOf(c.blkid) == Some(c.height)
  }

  /** `c` is a known block that folds on the anchored `parent` and is not anchored itself. */
  ghost predicate NextOn(cfg: Config, anchors: map<Commitment, Anchor>, c: Commitment, parent: Commitment) {
    && Known(cfg, c) && Fold(cfg, c).Some? && c !in anchors && c.height > GenesisHeight(cfg)
    && ParentOf(cfg, c) == Ok(parent) && parent in anchors && Fold(cfg, parent).Some?
  }

  ghost function LeafOf(cfg: Config, c: Commitment): Hash
    requires Fold(cfg, c).Some? && Fold(cfg, c).value.record.Some?
  {
    cfg.hash(Fold(cfg, c).value.record.value.manifest)
  }

  /** A block whose parent is anchored is planned on its parent. */
  lemma {:induction false} PlanAtParent(cfg: Config, anchors: map<Commitment, Anchor>, c: Commitment,
      parent: Commitment)
    requires c !in anchors && c.height > GenesisHeight(cfg)
    requires ParentOf(cfg, c) == Ok(parent) && parent in anchors
    ensures Plan(cfg, anchors, c) == Ok(SyncPlan(anchors[parent], parent, [c]))
  {
    assert Walk(parent, c, GenesisHeight(cfg), BaseAt(anchors), Links(cfg)) ==
           Ok(SyncPlan(anchors[parent], parent, []));
    assert [c] + [] == [c];
  }

  /** Some continuation brings in the next block on an anchored one exactly when the store serves what it asks for. */
  lemma {:induction false} SyncableIff(cfg: Config, events: seq<Event>, c: Commitment, parent: Commitment)
    requires ValidConfig(cfg) && HashNamesBlock(cfg) && Run(cfg, events).Some?
    requires NextOn(cfg, Run(cfg, events).value.store.anchors, c, parent)
    ensures CanAnchor(cfg, events, c) <==> ServesChild(cfg, Run(cfg, events).value.store.mmr, c, parent)
  {
    var st := Run(cfg, events).value.store;
    AnchoredIff(cfg, events, c);
    PlanAtParent(cfg, st.anchors, c, parent);
    assert parent.height < |st.mmr| by {
      RunKeepsInv(cfg, events);
    }
    ServedIffRight(cfg, st.mmr, c, parent);
    assert Clear(cfg, st, c) <==> RightUpTo(cfg, st.mmr, parent.height, c);
  }

  // ---- How a leaf becomes stale ---------------------------------------------------------------------

  /**
   Blocks a1, a2, a3 on genesis and a sibling b1 of a1; L1 knows them, their chains
   fold, and a3 asks for nothing.
   */
  ghost predicate Fork(cfg: Config, a1: Commitment, a2: Commitment, a3: Commitment, b1: Commitment) {
    && ParentOf(cfg, a1) == Ok(cfg.genesis.block) && ParentOf(cfg, a2) == Ok(a1) && ParentOf(cfg, a3) == Ok(a2)
    && ParentOf(cfg, b1) == Ok(cfg.genesis.block) && b1 != a1
    && Fold(cfg, a2).Some? && Fold(cfg, a3).Some? && Fold(cfg, b1).Some?
    && Known(cfg, a2) && Known(cfg, a3) && Known(cfg, b1)
    && AsksNothing(cfg, a3)
  }

  /** After the first start: genesis is anchored, the MMR is seeded, nothing else is stored. */
  lemma {:induction false} FirstStart(cfg: Config) returns (events: seq<Event>)
    requires ValidConfig(cfg)
    ensures var genesis := cfg.genesis;
      Run(cfg, events) ==
        Some(Sys(Store(map[genesis.block := genesis], map[], map[], genesis.acc),
                 Idle(Mem(genesis.block, genesis, cfg.genesisPredicate)), [], genesis.block))
  {
    var genesis, empty := cfg.genesis, Store(map[], map[], map[], []);
    var seeding := FirstSeeding(cfg);
    var storing := RunBoot(cfg, seeding);
    var seeded := empty.(mmr := genesis.acc, anchors := map[genesis.block := genesis]);
    assert Run(cfg, storing) == Some(Sys(seeded, Booting(None, Resume), [], genesis.block));
    events := RunBoot(cfg, storing);
  }

  lemma {:induction false} FirstSeeding(cfg: Config) returns (events: seq<Event>)
    requires ValidConfig(cfg)
    ensures Run(cfg, events) ==
      Some(Sys(Store(map[], map[], map[], cfg.genesis.acc), Booting(None, StoreGenesis), [], cfg.genesis.block))
  {
    var empty := Store(map[], map[], map[], []);
    var booted := RunSnoc(cfg, [], Boot(None));
    assert Run(cfg, booted) == Some(Sys(empty, Booting(None, CheckGenesis), [], cfg.genesis.block));
    var checked := RunBoot(cfg, booted);
    assert Run(cfg, checked) == Some(Sys(empty, Booting(None, SeedMmr), [], cfg.genesis.block));
    events := RunBoot(cfg, checked);
  }

  lemma {:induction false} GenesisIsAncestor(cfg: Config, c: Commitment)
    requires ValidConfig(cfg) && Fold(cfg, c).Some?
    ensures AncestorOrSelf(cfg, cfg.genesis.block, c)
  {
    FoldShape(cfg, c);
    AccumulatorIsAncestry(cfg, c, GenesisHeight(cfg));
    FoldShape(cfg, AncestorAt(cfg, c, GenesisHeight(cfg)).value);
  }

  /** A sync whose base is genesis goes through, and leaves the target's accumulator in place. */
  lemma {:induction false} SyncFromGenesis(cfg: Config, events: seq<Event>, target: Commitment)
      returns (more: seq<Event>)
    requires ValidConfig(cfg) && Run(cfg, events).Some? && Known(cfg, target) && Fold(cfg, target).Some?
    requires var s := Run(cfg, events).value;
      && s.phase.Idle? && target !in s.store.anchors
      && Plan(cfg, s.store.anchors, target).Ok?
      && Plan(cfg, s.store.anchors, target).value.baseBlock == cfg.genesis.block
    ensures events <= more && Run(cfg, more).Some?
    ensures var s, s' := Run(cfg, events).value, Run(cfg, more).value;
      && s'.phase.Idle? && target in s'.store.anchors
      && (forall c :: c in s.store.anchors ==> c in s'.store.anchors)
      && (forall c :: c in s'.store.anchors ==> c in s.store.anchors || AncestorOrSelf(cfg, c, target))
      && InStep(s'.store.mmr, Fold(cfg, target).value.anchor.acc)
      && LeavesKept(s.store.mmr, s'.store.mmr, GenesisHeight(cfg), target.height)
  {
    var st := Run(cfg, events).value.store;
    assert Clear(cfg, st, target) by {
      RunKeepsInv(cfg, events);
      PlanIsPath(cfg, st.anchors, target);
      InStepIsClear(cfg, st, target);
    }
    more := SubmitReachesTarget(cfg, events, target);
    assert LeavesReach(cfg, Run(cfg, more).value.store) by {
      RunKeepsInv(cfg, more);
    }
    FromGenesisInStep(cfg, Run(cfg, more).value.store.mmr, target);
  }

  lemma {:induction false} FromGenesisInStep(cfg: Config, mmr: seq<Hash>, c: Commitment)
    requires ValidConfig(cfg) && LeavesFrom(cfg, mmr, GenesisHeight(cfg), c) && GenesisHeight(cfg) < |mmr|
    requires mmr[..GenesisHeight(cfg) + 1] == cfg.genesis.acc
    ensures InStep(mmr, Fold(cfg, c).value.anchor.acc)
  {
    var acc, g := Fold(cfg, c).value.anchor.acc, GenesisHeight(cfg);
    GenesisIsAncestor(cfg, c);
    SharedLeaves(cfg, cfg.genesis.block, c);
    forall k | 0 <= k < |acc| ensures mmr[k] == acc[k] {
      if k <= g {
        assert mmr[k] == mmr[..g + 1][k];
      }
    }
  }

  /** The heights, ancestries and accumulators of a fork. */
  lemma {:induction false} ForkShape(cfg: Config, a1: Commitment, a2: Commitment, a3: Commitment, b1: Commitment)
    requires ValidConfig(cfg) && Fork(cfg, a1, a2, a3, b1)
    ensures b1.height == a1.height == GenesisHeight(cfg) + 1 && a2.height == b1.height + 1 && a3.height == b1.height + 2
    ensures !AncestorOrSelf(cfg, a3, a2) && !AncestorOrSelf(cfg, b1, a2)
    ensures !AncestorOrSelf(cfg, a3, b1) && !AncestorOrSelf(cfg, b1, a3)
  {
    assert AncestorAt(cfg, a2, b1.height) == Some(a1);
    assert AncestorAt(cfg, a3, b1.height) == AncestorAt(cfg, a2, b1.height);
  }

  lemma {:induction false} ForkLeaves(cfg: Config, a1: Commitment, a2: Commitment, a3: Commitment, b1: Commitment)
    requires ValidConfig(cfg) && Fork(cfg, a1, a2, a3, b1)
    ensures Fold(cfg, a1).Some? && Fold(cfg, a1).value.record.Some? && Fold(cfg, a2).value.record.Some?
    ensures Fold(cfg, a3).value.record.Some? && Fold(cfg, b1).value.record.Some?
    ensures Fold(cfg, b1).value.anchor.acc == cfg.genesis.acc + [LeafOf(cfg, b1)]
    ensures Fold(cfg, a2).value.anchor.acc == cfg.genesis.acc + [LeafOf(cfg, a1), LeafOf(cfg, a2)]
    ensures Fold(cfg, a3).value.anchor.acc == cfg.genesis.acc + [LeafOf(cfg, a1), LeafOf(cfg, a2), LeafOf(cfg, a3)]
  {
    ForkShape(cfg, a1, a2, a3, b1);
    FoldLink(cfg, b1);
    FoldLink(cfg, a3);
    FoldLink(cfg, a2);
    FoldLink(cfg, a1);
  }

  /** The leaves up to a2 are those of its chain, but for b1's in the place of a1's. */
  ghost predicate SiblingBelow(cfg: Config, mmr: seq<Hash>, a2: Commitment, b1: Commitment) {
    && Fold(cfg, b1).Some? && Fold(cfg, b1).value.record.Some?
    && Fold(cfg, a2).Some? && Fold(cfg, a2).value.record.Some?
    && a2.height < |mmr| && mmr[..a2.height + 1] == cfg.genesis.acc + [LeafOf(cfg, b1), LeafOf(cfg, a2)]
  }

  lemma {:induction false} SiblingLeavesDiffer(cfg: Config, a1: Commitment, b1: Commitment)
    requires ValidConfig(cfg) && HashNamesBlock(cfg) && a1 != b1 && a1.height == b1.height
    requires Fold(cfg, a1).Some? && Fold(cfg, a1).value.record.Some?
    requires Fold(cfg, b1).Some? && Fold(cfg, b1).value.record.Some?
    ensures LeafOf(cfg, a1) != LeafOf(cfg, b1)
  {
    FoldShape(cfg, a1);
    FoldShape(cfg, b1);
  }

  lemma {:induction false} PlanFromGenesis(cfg: Config, anchors: map<Commitment, Anchor>, target: Commitment)
    requires ValidConfig(cfg) && anchors.Keys == {cfg.genesis.block} && Fold(cfg, target).Some?
    ensures Plan(cfg, anchors, target).Ok? && Plan(cfg, anchors, target).value.baseBlock == cfg.genesis.block
  {
    PlanSucceeds(cfg, anchors, target, target);
    PlanIsPath(cfg, anchors, target);
  }

  /** The first branch is processed up to its second block. */
  lemma {:induction false} FirstBranch(cfg: Config, a1: Commitment, a2: Commitment, a3: Commitment, b1: Commitment)
      returns (events: seq<Event>)
    requires ValidConfig(cfg) && Fork(cfg, a1, a2, a3, b1)
    ensures Run(cfg, events).Some?
    ensures var s := Run(cfg, events).value;
      && s.phase.Idle? && InStep(s.store.mmr, Fold(cfg, a2).value.anchor.acc)
      && cfg.genesis.block in s.store.anchors && a2 in s.store.anchors
      && a3 !in s.store.anchors && b1 !in s.store.anchors
  {
    ForkShape(cfg, a1, a2, a3, b1);
    var e0 := FirstStart(cfg);
    var s0 := Run(cfg, e0).value;
    PlanFromGenesis(cfg, s0.store.anchors, a2);
    events := SyncFromGenesis(cfg, e0, a2);
  }

  /** Then the sibling: its leaf takes the place of a1's, and a2's stays where it was. */
  lemma {:induction false} BothBranches(cfg: Config, a1: Commitment, a2: Commitment, a3: Commitment, b1: Commitment)
      returns (events: seq<Event>)
    requires ValidConfig(cfg) && Fork(cfg, a1, a2, a3, b1)
    ensures Run(cfg, events).Some?
    ensures var s := Run(cfg, events).value;
      s.phase.Idle? && a2 in s.store.anchors && a3 !in s.store.anchors && SiblingBelow(cfg, s.store.mmr, a2, b1)
  {
    ForkShape(cfg, a1, a2, a3, b1);
    ForkLeaves(cfg, a1, a2, a3, b1);
    var e1 := FirstBranch(cfg, a1, a2, a3, b1);
    var s1 := Run(cfg, e1).value;
    PlanAtParent(cfg, s1.store.anchors, b1, cfg.genesis.block);
    events := SyncFromGenesis(cfg, e1, b1);
    LeavesAfter(cfg, s1.store.mmr, Run(cfg, events).value.store.mmr, a1, a2, a3, b1);
  }

  lemma {:induction false} LeavesAfter(cfg: Config, mmr: seq<Hash>, mmr': seq<Hash>,
      a1: Commitment, a2: Commitment, a3: Commitment, b1: Commitment)
    requires ValidConfig(cfg) && Fork(cfg, a1, a2, a3, b1)
    requires InStep(mmr, Fold(cfg, a2).value.anchor.acc) && InStep(mmr', Fold(cfg, b1).value.anchor.acc)
    requires LeavesKept(mmr, mmr', GenesisHeight(cfg), b1.height)
    ensures SiblingBelow(cfg, mmr', a2, b1)
  {
    ForkShape(cfg, a1, a2, a3, b1);
    ForkLeaves(cfg, a1, a2, a3, b1);
    assert mmr[a2.height] == mmr[..a2.height + 1][a2.height] == LeafOf(cfg, a2);
    assert mmr'[..a2.height + 1] == mmr'[..b1.height + 1] + [mmr'[a2.height]];
  }

  /** The leaves are those of the chain of `tip`, but for `leaf` at the height `at`. */
  ghost predicate LeafReplaced(cfg: Config, mmr: seq<Hash>, tip: Commitment, at: nat, leaf: Hash) {
    && Fold(cfg, tip).Some?
    && var acc := Fold(cfg, tip).value.anchor.acc;
       at < |acc| <= |mmr| && mmr[..|acc|] == acc[at := leaf]
  }

  /** One leaf of the chain of `tip` is another one in the store; all others are right. */
  ghost predicate OneStaleLeaf(cfg: Config, s: Sys, tip: Commitment, at: nat, leaf: Hash) {
    && tip in s.store.anchors && LeafReplaced(cfg, s.store.mmr, tip, at, leaf)
    && leaf != Fold(cfg, tip).value.anchor.acc[at]
  }

  /**
   Wherever L1 has such a fork, the worker can come back to the first branch after
   its sibling: a3 builds on the stored anchor of a2, so only its own leaf is
   written, and the leaf of b1 outlives its branch below the tip a3.
   */
  lemma {:induction false} StaleLeafOutlivesItsBranch(cfg: Config, a1: Commitment, a2: Commitment, a3: Commitment,
      b1: Commitment)
      returns (events: seq<Event>)
    requires ValidConfig(cfg) && HashNamesBlock(cfg) && Fork(cfg, a1, a2, a3, b1)
    ensures Run(cfg, events).Some? && Fold(cfg, b1).value.record.Some?
    ensures var s := Run(cfg, events).value;
      && s.phase.Idle? && s.phase.mem.tip == a3 == s.lastLeaf
      && OneStaleLeaf(cfg, s, a3, b1.height, LeafOf(cfg, b1))
      && s.store.mmr[b1.height] == LeafOf(cfg, b1)
      && b1.height < a3.height && !AncestorOrSelf(cfg, b1, a3) && !Agreement(cfg, s)
  {
    events := BackToFirst(cfg, a1, a2, a3, b1);
    StaleFacts(cfg, Run(cfg, events).value, a1, a2, a3, b1);
  }

  lemma {:induction false} BackToFirst(cfg: Config, a1: Commitment, a2: Commitment, a3: Commitment, b1: Commitment)
      returns (events: seq<Event>)
    requires ValidConfig(cfg) && Fork(cfg, a1, a2, a3, b1)
    ensures Run(cfg, events).Some? && Fold(cfg, b1).value.record.Some?
    ensures var s := Run(cfg, events).value;
      && s.phase.Idle? && s.phase.mem.tip == a3 == s.lastLeaf && a3 in s.store.anchors
      && LeafReplaced(cfg, s.store.mmr, a3, b1.height, LeafOf(cfg, b1))
  {
    var e2 := BothBranches(cfg, a1, a2, a3, b1);
    var st := Run(cfg, e2).value.store;
    assert a3.height > GenesisHeight(cfg) by {
      ForkShape(cfg, a1, a2, a3, b1);
    }
    PlanAtParent(cfg, st.anchors, a3, a2);
    assert RightUpTo(cfg, st.mmr, a2.height, a3) by {
      FoldLink(cfg, a3);
    }
    assert Clear(cfg, st, a3);
    events := SubmitReachesTarget(cfg, e2, a3);
    StaleAfter(cfg, st.mmr, Run(cfg, events).value.store.mmr, a1, a2, a3, b1);
  }

  lemma {:induction false} StaleFacts(cfg: Config, s: Sys, a1: Commitment, a2: Commitment, a3: Commitment,
      b1: Commitment)
    requires ValidConfig(cfg) && HashNamesBlock(cfg) && Fork(cfg, a1, a2, a3, b1) && Fold(cfg, b1).value.record.Some?
    requires a3 in s.store.anchors && s.lastLeaf == a3
    requires LeafReplaced(cfg, s.store.mmr, a3, b1.height, LeafOf(cfg, b1))
    ensures OneStaleLeaf(cfg, s, a3, b1.height, LeafOf(cfg, b1))
    ensures s.store.mmr[b1.height] == LeafOf(cfg, b1)
    ensures b1.height < a3.height && !AncestorOrSelf(cfg, b1, a3) && !Agreement(cfg, s)
  {
    var acc := Fold(cfg, a3).value.anchor.acc;
    ForkShape(cfg, a1, a2, a3, b1);
    assert acc[b1.height] != LeafOf(cfg, b1) by {
      ForkLeaves(cfg, a1, a2, a3, b1);
      SiblingLeavesDiffer(cfg, a1, b1);
    }
    assert s.store.mmr[b1.height] == s.store.mmr[..|acc|][b1.height];
  }

  lemma {:induction false} StaleAfter(cfg: Config, mmr: seq<Hash>, mmr': seq<Hash>,
      a1: Commitment, a2: Commitment, a3: Commitment, b1: Commitment)
    requires ValidConfig(cfg) && Fork(cfg, a1, a2, a3, b1)
    requires SiblingBelow(cfg, mmr, a2, b1)
    requires LeavesKept(mmr, mmr', a2.height, a3.height) && LeavesFrom(cfg, mmr', a2.height, a3)
    ensures LeafReplaced(cfg, mmr', a3, b1.height, LeafOf(cfg, b1))
  {
    ForkShape(cfg, a1, a2, a3, b1);
    ForkLeaves(cfg, a1, a2, a3, b1);
    assert mmr'[..a2.height + 1] == mmr[..a2.height + 1];
    assert mmr'[..a3.height + 1] == mmr'[..a2.height + 1] + [LeafOf(cfg, a3)];
  }

  /**
   What it costs: with one stale leaf below an anchored block, any block above that
   one can still be brought in, in some continuation, exactly when no block on the
   path to it asks into the mountain of the stale leaf.
   */
  lemma {:induction false} StaleLeafStopsExactly(cfg: Config, events: seq<Event>, tip: Commitment, at: nat, leaf: Hash,
      target: Commitment)
    requires ValidConfig(cfg) && HashNamesBlock(cfg) && Run(cfg, events).Some?
    requires OneStaleLeaf(cfg, Run(cfg, events).value, tip, at, leaf)
    requires Known(cfg, target) && Fold(cfg, target).Some?
    requires Plan(cfg, Run(cfg, events).value.store.anchors, target).Ok?
    requires Plan(cfg, Run(cfg, events).value.store.anchors, target).value.baseBlock == tip
    ensures CanAnchor(cfg, events, target) <==>
      forall c :: c in Plan(cfg, Run(cfg, events).value.store.anchors, target).value.pending ==> !AsksInto(cfg, c, at)
  {
    var st := Run(cfg, events).value.store;
    var pending := Plan(cfg, st.anchors, target).value.pending;
    AnchoredIff(cfg, events, target);
    forall c | c in pending ensures RightUpTo(cfg, st.mmr, tip.height, c) <==> !AsksInto(cfg, c, at) {
      var k :| 0 <= k < |pending| && pending[k] == c;
      OnPath(cfg, st.anchors, target, k);
      StaleForBlock(cfg, st.mmr, tip, at, leaf, c);
    }
  }

  lemma {:induction false} StaleForBlock(cfg: Config, mmr: seq<Hash>, tip: Commitment, at: nat, leaf: Hash,
      c: Commitment)
    requires ValidConfig(cfg) && Fold(cfg, c).Some? && c.height > GenesisHeight(cfg)
    requires LeafReplaced(cfg, mmr, tip, at, leaf) && leaf != Fold(cfg, tip).value.anchor.acc[at]
    requires ParentOf(cfg, c).Ok? && AncestorOrSelf(cfg, tip, ParentOf(cfg, c).value)
    ensures RightUpTo(cfg, mmr, tip.height, c) <==> !AsksInto(cfg, c, at)
  {
    ChainBelow(cfg, tip, c);
    var f := Fold(cfg, ParentOf(cfg, c).value).value;
    var own := Fold(cfg, tip).value.anchor.acc;
    forall k: nat | k <= tip.height ensures mmr[k] == f.anchor.acc[k] <==> k != at {
      assert mmr[k] == mmr[..|own|][k];
    }
    forall h: nat | h < |f.anchor.acc|
      ensures MountainRight(mmr, f.anchor.acc, tip.height, h) <==> !InMountain(|f.anchor.acc|, h, at)
    {
    }
  }

  // ---- There are such forks ----------------------------------------------------------------------------

  /** A block folds on its parent when the parent's predicate has a spec that finds and executes what it asks. */
  lemma {:induction false} ChildFolds(cfg: Config, c: Commitment, parent: Commitment, specId: SpecId, e: Effects)
    requires ValidConfig(cfg) && ParentOf(cfg, c) == Ok(parent) && Fold(cfg, parent).Some?
    requires Resolve(cfg.targets, Fold(cfg, parent).value.next) == Some(specId)
    requires var pre := Fold(cfg, parent).value.anchor;
      Found(View(cfg, pre.acc), |pre.acc|, Collected(cfg, specId, pre, c.blkid))
    requires cfg.acceptsHeader(specId, Fold(cfg, parent).value.anchor, c.blkid)
    requires cfg.execute(specId, Fold(cfg, parent).value.anchor, c.blkid) == Some(e)
    ensures Fold(cfg, c).Some? && Fold(cfg, c).value.next == Carry(Fold(cfg, parent).value.next, e.logs)
  {
    FoldShape(cfg, parent);
    var pre := Fold(cfg, parent).value.anchor;
    assert pre.acc[..|pre.acc|] == pre.acc;
    InStepServes(View(cfg, pre.acc), pre.acc, Collected(cfg, specId, pre, c.blkid));
  }

  /** Under predicate 0 every header is accepted and every block does nothing. */
  ghost predicate QuietSpec(cfg: Config) {
    && Resolve(cfg.targets, 0) == Some(0)
    && forall pre, id :: cfg.acceptsHeader(0, pre, id) && cfg.execute(0, pre, id) == Some(Effects(0, [], 0, 0))
  }

  lemma {:induction false} QuietChildFolds(cfg: Config, c: Commitment, parent: Commitment)
    requires ValidConfig(cfg) && QuietSpec(cfg) && ParentOf(cfg, c) == Ok(parent)
    requires Fold(cfg, parent).Some? && Fold(cfg, parent).value.next == 0
    requires var pre := Fold(cfg, parent).value.anchor;
      Found(View(cfg, pre.acc), |pre.acc|, Collected(cfg, 0, pre, c.blkid))
    ensures Fold(cfg, c).Some? && Fold(cfg, c).value.next == 0
  {
    ChildFolds(cfg, c, parent, 0, Effects(0, [], 0, 0));
  }

  /** A fork, and on its third block one that asks for the sibling's height. */
  lemma {:induction false} ForkExists()
      returns (cfg: Config, a1: Commitment, a2: Commitment, a3: Commitment, b1: Commitment, c: Commitment)
    ensures ValidConfig(cfg) && HashNamesBlock(cfg) && Fork(cfg, a1, a2, a3, b1)
    ensures Known(cfg, c) && ParentOf(cfg, c) == Ok(a3) && Fold(cfg, c).Some?
    ensures var f := Fold(cfg, a3).value;
      Asked(Requests(cfg, f.next, f.anchor, c.blkid), b1.height)
  {
    cfg := Config(
      Anchor(Commitment(0, 0), 0, [Word(0)], 0), 0, [Target(0, 0)], true,
      id => if id == 1 || id == 3 then Some(0) else if id == 2 then Some(1) else if id == 4 then Some(2)
            else if id == 5 then Some(4) else None,
      id => if id == 1 || id == 3 then Some(1) else if id == 2 then Some(2) else if id == 4 then Some(3)
            else if id == 5 then Some(4) else None,
      (spec, pre, id) => true,
      (spec, pre, id) => if id == 5 then [ManifestHashRange(1, 1)] else [],
      (spec, pre, id) => Some(Effects(0, [], 0, 0)),
      (m: Manifest) => Word(m.blkid));
    a1, a2, a3, b1 := Commitment(1, 1), Commitment(2, 2), Commitment(3, 4), Commitment(1, 3);
    c := Commitment(4, 5);
    assert QuietSpec(cfg);
    assert Fold(cfg, cfg.genesis.block) == Some(Folded(cfg.genesis, 0, None));
    QuietChildFolds(cfg, b1, cfg.genesis.block);
    QuietChildFolds(cfg, a1, cfg.genesis.block);
    QuietChildFolds(cfg, a2, a1);
    QuietChildFolds(cfg, a3, a2);
    FoldShape(cfg, a3);
    var pre := Fold(cfg, a3).value.anchor;
    var asked := [ManifestHashRange(1, 1)];
    assert cfg.requests(0, pre, 5) == asked && |pre.acc| == 4;
    assert Collect(3, asked, 0) == [] && Collect(3, asked, 1) == asked;
    QuietChildFolds(cfg, c, a3);
  }

  /** With a block, no block above it can be brought in either. */
  lemma {:induction false} NothingAboveComesIn(cfg: Config, events: seq<Event>, c: Commitment)
    requires ValidConfig(cfg) && c.height >= GenesisHeight(cfg) && !CanAnchor(cfg, events, c)
    ensures forall d :: AncestorOrSelf(cfg, c, d) ==> !CanAnchor(cfg, events, d)
  {
    forall d, more | AncestorOrSelf(cfg, c, d) && events <= more ensures !Anchors(cfg, more, d) {
      if Anchors(cfg, more, d) {
        RunKeepsInv(cfg, more);
        AncestorNotAbove(cfg, d, c.height);
        AncestorsStored(cfg, Run(cfg, more).value.store, d, c.height);
        assert Anchors(cfg, more, c);
      }
    }
  }

  /**
   So some run leaves the worker idle before a block that folds on an anchored one,
   and that no continuation brings in, nor any block above it.
   */
  lemma {:induction false} FoldingBlockRefused()
      returns (cfg: Config, events: seq<Event>, c: Commitment, tip: Commitment)
    ensures ValidConfig(cfg) && Run(cfg, events).Some? && Run(cfg, events).value.phase.Idle?
    ensures NextOn(cfg, Run(cfg, events).value.store.anchors, c, tip)
    ensures forall d :: AncestorOrSelf(cfg, c, d) ==> !CanAnchor(cfg, events, d)
  {
    var a1, a2, a3, b1;
    cfg, a1, a2, a3, b1, c := ForkExists();
    tip := a3;
    events := StaleLeafOutlivesItsBranch(cfg, a1, a2, a3, b1);
    var s := Run(cfg, events).value;
    assert c.height > GenesisHeight(cfg) && c !in s.store.anchors by {
      FoldShape(cfg, a3);
      RunKeepsLeafInv(cfg, events);
      ChildHasAncestor(cfg, c, a3);
    }
    PlanAtParent(cfg, s.store.anchors, c, a3);
    assert AsksInto(cfg, c, b1.height) by {
      FoldShape(cfg, a3);
      assert InMountain(|Fold(cfg, a3).value.anchor.acc|, b1.height, b1.height);
    }
    StaleLeafStopsExactly(cfg, events, a3, b1.height, LeafOf(cfg, b1), c);
    assert c in Plan(cfg, s.store.anchors, c).value.pending;
    NothingAboveComesIn(cfg, events, c);
  }
}
