/**
 When the height-indexed manifest MMR agrees with the chain whose leaf was
 written last, and when it does not.
 */
module WorkerMmr {
  import opened Wrappers
  import opened Sync
  import opened AuxData
  import opened Worker
  import opened WorkerSafety

  /** Up to the height of `lastLeaf`, the leaves are the accumulator of that block. */
  ghost predicate Agreement(cfg: Config, s: Sys) {
    && Fold(cfg, s.lastLeaf).Some?
    && s.lastLeaf.height < |s.store.mmr|
    && s.store.mmr[..s.lastLeaf.height + 1] == Fold(cfg, s.lastLeaf).value.anchor.acc
  }

  /** What agreement says leaf by leaf. */
  lemma {:induction false} AgreementMeansAncestry(cfg: Config, s: Sys, h: nat)
    requires ValidConfig(cfg) && Agreement(cfg, s)
    requires GenesisHeight(cfg) < h <= s.lastLeaf.height
    ensures AncestorAt(cfg, s.lastLeaf, h).Some?
    ensures var a := AncestorAt(cfg, s.lastLeaf, h).value;
      && Fold(cfg, a).Some? && Fold(cfg, a).value.record.Some?
      && s.store.mmr[h] == cfg.hash(Fold(cfg, a).value.record.value.manifest)
  {
    AccumulatorIsAncestry(cfg, s.lastLeaf, h);
    assert s.store.mmr[..s.lastLeaf.height + 1][h] == s.store.mmr[h];
  }

  /** Below an ancestor of the last written block the leaves are that ancestor's accumulator. */
  lemma {:induction false} AgreementBelow(cfg: Config, s: Sys, a: Commitment)
    requires ValidConfig(cfg) && Agreement(cfg, s)
    requires Fold(cfg, a).Some? && AncestorOrSelf(cfg, a, s.lastLeaf)
    ensures a.height <= s.lastLeaf.height
    ensures s.store.mmr[..a.height + 1] == Fold(cfg, a).value.anchor.acc
  {
    FoldShape(cfg, a);
    AncestorNotAbove(cfg, s.lastLeaf, a.height);
    AccumulatorIsAncestry(cfg, s.lastLeaf, a.height);
    assert s.store.mmr[..a.height + 1] == s.store.mmr[..s.lastLeaf.height + 1][..a.height + 1];
  }

  lemma {:induction false} AncestorNotAbove(cfg: Config, c: Commitment, h: nat)
    requires AncestorAt(cfg, c, h).Some?
    ensures h <= c.height && AncestorAt(cfg, c, h).value.height == h
    decreases c.height
  {
    if c.height > h {
      AncestorNotAbove(cfg, ParentOf(cfg, c).value, h);
    }
  }

  // ---- Sufficiency over whole runs --------------------------------------------------------

  /** A submission that does work starts from an ancestor of the last written block. */
  ghost predicate BaseOnLastBranch(cfg: Config, s: Sys, e: Event) {
    e.Submit? && s.phase.Idle? ==>
      match PlanFor(cfg, s.store, s.phase.mem, e.target)
      case Ok(Some(p)) => AncestorOrSelf(cfg, p.mem.tip, s.lastLeaf)
      case _ => true
  }

  ghost predicate SingleBranchRun(cfg: Config, events: seq<Event>) {
    forall i :: 0 <= i < |events| && Run(cfg, events[..i]).Some? ==>
      BaseOnLastBranch(cfg, Run(cfg, events[..i]).value, events[i])
  }

  /** Agreement, and while a sync is under way its base is still on the last written branch. */
  ghost predicate MmrInv(cfg: Config, s: Sys) {
    && (s.store.mmr != [] ==> Agreement(cfg, s))
    && (s.store.mmr == [] ==> s.lastLeaf == cfg.genesis.block)
    && (s.phase.Syncing? || s.phase.Applying? ==> AncestorOrSelf(cfg, s.phase.mem.tip, s.lastLeaf))
  }

  /** A child's leaf on top of its parent's accumulator gives the child's accumulator. */
  lemma {:induction false} LeafOnTop(cfg: Config, mmr: seq<Hash>, mmr': seq<Hash>, c: Commitment)
    requires ValidConfig(cfg) && Fold(cfg, c).Some? && c != cfg.genesis.block
    requires c.height <= |mmr| && ParentOf(cfg, c).Ok? && Fold(cfg, ParentOf(cfg, c).value).Some?
    requires mmr[..c.height] == Fold(cfg, ParentOf(cfg, c).value).value.anchor.acc
    requires Fold(cfg, c).value.record.Some?
    requires PutLeaf(cfg, mmr, c.height, cfg.hash(Fold(cfg, c).value.record.value.manifest)) == Some(mmr')
    ensures c.height < |mmr'| && mmr'[..c.height + 1] == Fold(cfg, c).value.anchor.acc
  {
    FoldLink(cfg, c);
    assert mmr'[..c.height + 1] == mmr[..c.height] + [mmr'[c.height]];
  }

  /** The store starts with the accumulator's leaves. */
  ghost predicate InStep(mmr: seq<Hash>, acc: seq<Hash>) {
    |acc| <= |mmr| && mmr[..|acc|] == acc
  }

  /** The block being applied folds on the tip and is being written as it folds. */
  ghost predicate Applies(cfg: Config, p: Phase) {
    && p.Applying? && p.todo != []
    && ParentOf(cfg, p.todo[0]) == Ok(p.mem.tip) && p.todo[0].height > GenesisHeight(cfg)
    && Fold(cfg, p.mem.tip).Some? && p.mem.anchor == Fold(cfg, p.mem.tip).value.anchor
    && RunInv(cfg, p.todo[0], p.run)
  }

  lemma {:induction false} LeafWriteKeepsAgreement(cfg: Config, s: Sys, s': Sys)
    requires ValidConfig(cfg) && Applies(cfg, s.phase) && s.phase.stage.ManifestWritten?
    requires NextWrite(cfg, s) == Some(s') && InStep(s.store.mmr, s.phase.mem.anchor.acc)
    ensures Agreement(cfg, s') && s'.lastLeaf == s.phase.todo[0]
    ensures AncestorOrSelf(cfg, s.phase.mem.tip, s'.lastLeaf)
  {
    var c, tip := s.phase.todo[0], s.phase.mem.tip;
    FoldShape(cfg, c);
    FoldShape(cfg, tip);
    LeafOnTop(cfg, s.store.mmr, s'.store.mmr, c);
    ChildHasAncestor(cfg, c, tip);
  }

  lemma {:induction false} ChildHasAncestor(cfg: Config, c: Commitment, parent: Commitment)
    requires ParentOf(cfg, c) == Ok(parent)
    ensures AncestorOrSelf(cfg, parent, c)
  {
    assert AncestorAt(cfg, c, parent.height) == AncestorAt(cfg, parent, parent.height);
  }

  /** What the invariant says of a block being applied, as far as the MMR goes. */
  ghost predicate Ready(cfg: Config, s: Sys) {
    s.phase.Applying? ==>
      && s.phase.todo != [] && s.store.mmr != []
      && if s.phase.stage.AnchorWritten? then s.lastLeaf == s.phase.todo[0] else Applies(cfg, s.phase)
  }

  lemma {:induction false} InvIsReady(cfg: Config, s: Sys)
    requires ValidConfig(cfg) && Inv(cfg, s)
    ensures Ready(cfg, s)
  {
  }

  lemma {:induction false} WriteKeepsMmrInv(cfg: Config, s: Sys, s': Sys)
    requires ValidConfig(cfg) && Applies(cfg, s.phase) && MmrInv(cfg, s) && NextWrite(cfg, s) == Some(s')
    requires s.store.mmr != []
    ensures MmrInv(cfg, s')
  {
    if s.phase.stage.ManifestWritten? {
      AgreementInStep(cfg, s, s.phase.mem.tip);
      LeafWriteKeepsAgreement(cfg, s, s');
    } else {
      assert s'.store.mmr == s.store.mmr && s'.lastLeaf == s.lastLeaf && s'.phase.mem == s.phase.mem;
    }
  }

  lemma {:induction false} BootKeepsMmrInv(cfg: Config, s: Sys, s': Sys)
    requires ValidConfig(cfg) && MmrInv(cfg, s) && s.phase.Booting? && NextBoot(cfg, s) == Some(s')
    ensures MmrInv(cfg, s')
  {
    if s.phase.boot.SeedMmr? && s.store.mmr == [] {
      assert cfg.genesis.acc[..|cfg.genesis.acc|] == cfg.genesis.acc;
    }
  }

  lemma {:induction false} AcceptKeepsMmrInv(cfg: Config, s: Sys)
    requires MmrInv(cfg, s) && s.phase.Applying? && s.phase.todo != [] && s.lastLeaf == s.phase.todo[0]
    ensures MmrInv(cfg, AfterAccept(s))
  {
    assert AncestorAt(cfg, s.lastLeaf, s.lastLeaf.height) == Some(s.lastLeaf);
  }

  lemma {:induction false} StepKeepsMmrInv(cfg: Config, s: Sys, e: Event)
    requires ValidConfig(cfg) && Ready(cfg, s) && MmrInv(cfg, s) && Next(cfg, s, e).Some?
    requires BaseOnLastBranch(cfg, s, e)
    ensures MmrInv(cfg, Next(cfg, s, e).value)
  {
    var s' := Next(cfg, s, e).value;
    match e
    case Crash =>
    case Boot(_) =>
    case BootStep => BootKeepsMmrInv(cfg, s, s');
    case Submit(_) =>
    case Execute =>
    case Write => WriteKeepsMmrInv(cfg, s, s');
    case Accept => AcceptKeepsMmrInv(cfg, s);
  }

  /**
   Over every run whose working submissions start on the last written branch,
   all leaves up to the last written block belong to its own ancestry: across
   crashes, restarts and reorgs to shorter branches.
   */
  lemma {:induction false} RunKeepsAgreement(cfg: Config, events: seq<Event>)
    requires ValidConfig(cfg) && Run(cfg, events).Some? && SingleBranchRun(cfg, events)
    ensures MmrInv(cfg, Run(cfg, events).value)
  {
    if events != [] {
      var n := |events| - 1;
      var before := events[..n];
      forall i | 0 <= i < |before| && Run(cfg, before[..i]).Some?
        ensures BaseOnLastBranch(cfg, Run(cfg, before[..i]).value, before[i])
      {
        assert before[..i] == events[..i];
      }
      RunKeepsAgreement(cfg, before);
      RunKeepsInv(cfg, before);
      InvIsReady(cfg, Run(cfg, before).value);
      StepKeepsMmrInv(cfg, Run(cfg, before).value, events[n]);
    }
  }

  lemma {:induction false} AgreementInStep(cfg: Config, s: Sys, tip: Commitment)
    requires ValidConfig(cfg) && Agreement(cfg, s) && Fold(cfg, tip).Some? && AncestorOrSelf(cfg, tip, s.lastLeaf)
    ensures InStep(s.store.mmr, Fold(cfg, tip).value.anchor.acc)
  {
    FoldShape(cfg, tip);
    AgreementBelow(cfg, s, tip);
  }

  /** A store in step serves every block that folds. */
  lemma {:induction false} InStepServesBlock(cfg: Config, st: Store, mem: Mem, c: Commitment)
    requires ValidConfig(cfg) && StoreInv(cfg, st) && MemInv(cfg, st, mem) && InStep(st.mmr, mem.anchor.acc)
    requires ParentOf(cfg, c) == Ok(mem.tip) && c.height > GenesisHeight(cfg) && Fold(cfg, c).Some?
    ensures StoreServes(cfg, st, mem, c)
  {
    var ranges := Requests(cfg, mem.next, mem.anchor, c.blkid);
    assert Fold(cfg, c) == FoldStep(cfg, Fold(cfg, mem.tip).value, c);
    assert Found(View(cfg, mem.anchor.acc), |mem.anchor.acc|, ranges);
    FoundElsewhere(View(cfg, st.mmr), View(cfg, mem.anchor.acc), mem.anchor.acc, ranges);
    InStepServes(View(cfg, st.mmr), mem.anchor.acc, ranges);
  }

  /**
   In such a run the next block is executed against leaves that match its
   accumulator, so whatever it asks for is served: it executes exactly when it folds.
   */
  lemma {:induction false} SingleBranchServes(cfg: Config, events: seq<Event>)
    requires ValidConfig(cfg) && Run(cfg, events).Some? && SingleBranchRun(cfg, events)
    requires Run(cfg, events).value.phase.Syncing?
    ensures var s := Run(cfg, events).value;
      var mem, c := s.phase.mem, s.phase.todo[0];
      && InStep(s.store.mmr, mem.anchor.acc)
      && (Fold(cfg, c).Some? ==> StoreServes(cfg, s.store, mem, c))
      && (Transition(cfg, s.store.mmr, mem.next, mem.anchor, c.blkid).Ok? <==> Fold(cfg, c).Some?)
  {
    var s := Run(cfg, events).value;
    RunKeepsAgreement(cfg, events);
    RunKeepsInv(cfg, events);
    AgreementInStep(cfg, s, s.phase.mem.tip);
    ServedWhenInStep(cfg, s);
  }

  lemma {:induction false} ServedWhenInStep(cfg: Config, s: Sys)
    requires ValidConfig(cfg) && Inv(cfg, s) && s.phase.Syncing? && InStep(s.store.mmr, s.phase.mem.anchor.acc)
    ensures var mem, c := s.phase.mem, s.phase.todo[0];
      && (Fold(cfg, c).Some? ==> StoreServes(cfg, s.store, mem, c))
      && (Transition(cfg, s.store.mmr, mem.next, mem.anchor, c.blkid).Ok? <==> Fold(cfg, c).Some?)
  {
    var mem, c := s.phase.mem, s.phase.todo[0];
    if Fold(cfg, c).Some? {
      InStepServesBlock(cfg, s.store, mem, c);
    }
    ExecuteIff(cfg, s.store, mem, c);
  }
}
