/**
 Exactly when a leaf write keeps the MMR in agreement with the last written branch.
 */
module WorkerAgreement {
  import opened Wrappers
  import opened Sync
  import opened AuxData
  import opened Worker
  import opened WorkerSafety
  import opened WorkerMmr

  /** A manifest hash names the block among those of its height. */
  ghost predicate HashNamesBlock(cfg: Config) {
    forall m, n :: cfg.hash(m) == cfg.hash(n) && m.height == n.height ==> m.blkid == n.blkid
  }

  /** The last written block has no stored strict descendant. */
  ghost predicate LeafInv(cfg: Config, s: Sys) {
    && Fold(cfg, s.lastLeaf).Some?
    && forall c :: c in s.store.anchors && AncestorOrSelf(cfg, s.lastLeaf, c) ==> c == s.lastLeaf
  }

  lemma {:induction false} WriteKeepsLeafInv(cfg: Config, s: Sys, s': Sys)
    requires ValidConfig(cfg) && Inv(cfg, s) && LeafInv(cfg, s)
    requires s.phase.Applying? && NextWrite(cfg, s) == Some(s')
    ensures LeafInv(cfg, s')
  {
    var block := s.phase.todo[0];
    FoldShape(cfg, block);
    if s.phase.stage.ManifestWritten? || s.phase.stage.AuxWritten? {
      forall c | c in s.store.anchors ensures !AncestorOrSelf(cfg, block, c) {
        if AncestorOrSelf(cfg, block, c) {
          AncestorNotAbove(cfg, c, block.height);
          AncestorsStored(cfg, s.store, c, block.height);
        }
      }
    }
  }

  lemma {:induction false} BootKeepsLeafInv(cfg: Config, s: Sys, s': Sys)
    requires ValidConfig(cfg) && LeafInv(cfg, s) && s.phase.Booting? && NextBoot(cfg, s) == Some(s')
    ensures LeafInv(cfg, s')
  {
    FoldShape(cfg, s.lastLeaf);
    var g := cfg.genesis.block;
    assert s'.lastLeaf == s.lastLeaf;
    assert forall c :: c in s'.store.anchors ==> c in s.store.anchors || c == g;
    if AncestorOrSelf(cfg, s.lastLeaf, g) {
      AncestorNotAbove(cfg, g, s.lastLeaf.height);
    }
  }

  lemma {:induction false} StepKeepsLeafInv(cfg: Config, s: Sys, e: Event)
    requires ValidConfig(cfg) && Inv(cfg, s) && LeafInv(cfg, s) && Next(cfg, s, e).Some?
    ensures LeafInv(cfg, Next(cfg, s, e).value)
  {
    var s' := Next(cfg, s, e).value;
    match e
    case Write => WriteKeepsLeafInv(cfg, s, s');
    case BootStep => BootKeepsLeafInv(cfg, s, s');
    case _ => assert s'.store == s.store && s'.lastLeaf == s.lastLeaf;
  }

  lemma {:induction false} RunKeepsLeafInv(cfg: Config, events: seq<Event>)
    requires ValidConfig(cfg) && Run(cfg, events).Some?
    ensures LeafInv(cfg, Run(cfg, events).value)
  {
    if events != [] {
      var before := events[..|events| - 1];
      RunKeepsLeafInv(cfg, before);
      RunKeepsInv(cfg, before);
      StepKeepsLeafInv(cfg, Run(cfg, before).value, events[|events| - 1]);
    }
  }

  /** Equal accumulators at one height belong to one block. */
  lemma {:induction false} AccumulatorNamesBlock(cfg: Config, a: Commitment, b: Commitment)
    requires ValidConfig(cfg) && HashNamesBlock(cfg)
    requires Fold(cfg, a).Some? && Fold(cfg, b).Some? && a.height == b.height
    requires Fold(cfg, a).value.anchor.acc == Fold(cfg, b).value.anchor.acc
    ensures a == b
  {
    FoldShape(cfg, a);
    FoldShape(cfg, b);
    if a.height > GenesisHeight(cfg) {
      AccumulatorIsAncestry(cfg, a, a.height);
      AccumulatorIsAncestry(cfg, b, b.height);
    }
  }

  /** If a block's accumulator extends another's, the other is its ancestor. */
  lemma {:induction false} PrefixIsAncestor(cfg: Config, a: Commitment, c: Commitment)
    requires ValidConfig(cfg) && HashNamesBlock(cfg)
    requires Fold(cfg, a).Some? && Fold(cfg, c).Some? && a.height <= c.height
    requires |Fold(cfg, c).value.anchor.acc| == c.height + 1
    requires Fold(cfg, c).value.anchor.acc[..a.height + 1] == Fold(cfg, a).value.anchor.acc
    ensures AncestorOrSelf(cfg, a, c)
  {
    FoldShape(cfg, a);
    AccumulatorIsAncestry(cfg, c, a.height);
    AccumulatorNamesBlock(cfg, AncestorAt(cfg, c, a.height).value, a);
  }

  /**
   In any reachable state in agreement, the leaf write of the block being applied
   keeps agreement if and only if the block's parent is an ancestor of, or is, the
   block whose leaf was written last.
   */
  lemma {:induction false} LeafWriteKeepsAgreementIff(cfg: Config, events: seq<Event>, s': Sys)
    requires ValidConfig(cfg) && HashNamesBlock(cfg) && Run(cfg, events).Some?
    requires var s := Run(cfg, events).value;
      && s.phase.Applying? && s.phase.stage.ManifestWritten? && s.phase.todo != []
      && NextWrite(cfg, s) == Some(s') && Agreement(cfg, s)
    ensures var s := Run(cfg, events).value;
      Agreement(cfg, s') <==> AncestorOrSelf(cfg, s.phase.mem.tip, s.lastLeaf)
  {
    var s := Run(cfg, events).value;
    RunKeepsInv(cfg, events);
    if AncestorOrSelf(cfg, s.phase.mem.tip, s.lastLeaf) {
      WriteOnBranchAgrees(cfg, s, s');
    }
    if Agreement(cfg, s') {
      RunKeepsLeafInv(cfg, events);
      AgreeingWriteIsOnBranch(cfg, s, s');
    }
  }

  lemma {:induction false} WriteOnBranchAgrees(cfg: Config, s: Sys, s': Sys)
    requires ValidConfig(cfg) && Inv(cfg, s) && s.phase.Applying? && s.phase.stage.ManifestWritten?
    requires NextWrite(cfg, s) == Some(s') && Agreement(cfg, s)
    requires AncestorOrSelf(cfg, s.phase.mem.tip, s.lastLeaf)
    ensures Agreement(cfg, s')
  {
    AgreementBelow(cfg, s, s.phase.mem.tip);
    LeafWriteKeepsAgreement(cfg, s, s');
  }

  lemma {:induction false} AgreeingWriteIsOnBranch(cfg: Config, s: Sys, s': Sys)
    requires ValidConfig(cfg) && HashNamesBlock(cfg) && Inv(cfg, s) && LeafInv(cfg, s)
    requires s.phase.Applying? && s.phase.stage.ManifestWritten?
    requires NextWrite(cfg, s) == Some(s') && Agreement(cfg, s) && Agreement(cfg, s')
    ensures AncestorOrSelf(cfg, s.phase.mem.tip, s.lastLeaf)
  {
    InvIsReady(cfg, s);
    ParentPrefixIntact(cfg, s, s');
    SharedLeavesOneBranch(cfg, s, s.phase.mem.tip);
  }

  /** The write leaves every lower leaf alone, so agreement after it includes the parent's accumulator. */
  lemma {:induction false} ParentPrefixIntact(cfg: Config, s: Sys, s': Sys)
    requires ValidConfig(cfg) && Applies(cfg, s.phase) && s.phase.stage.ManifestWritten?
    requires NextWrite(cfg, s) == Some(s') && Agreement(cfg, s')
    ensures s.phase.mem.tip.height < |s.store.mmr|
    ensures s.store.mmr[..s.phase.mem.tip.height + 1] == Fold(cfg, s.phase.mem.tip).value.anchor.acc
  {
    var c := s.phase.todo[0];
    FoldShape(cfg, c);
    FoldLink(cfg, c);
    LeafUnder(cfg, s.store.mmr, s'.store.mmr, c);
  }

  lemma {:induction false} LeafUnder(cfg: Config, mmr: seq<Hash>, mmr': seq<Hash>, c: Commitment)
    requires ValidConfig(cfg) && Fold(cfg, c).Some? && c != cfg.genesis.block && Fold(cfg, c).value.record.Some?
    requires PutLeaf(cfg, mmr, c.height, cfg.hash(Fold(cfg, c).value.record.value.manifest)) == Some(mmr')
    requires mmr'[..c.height + 1] == Fold(cfg, c).value.anchor.acc
    ensures ParentOf(cfg, c).Ok? && Fold(cfg, ParentOf(cfg, c).value).Some? && c.height <= |mmr|
    ensures mmr[..c.height] == Fold(cfg, ParentOf(cfg, c).value).value.anchor.acc
  {
    FoldLink(cfg, c);
    FoldShape(cfg, ParentOf(cfg, c).value);
    assert mmr[..c.height] == mmr'[..c.height + 1][..c.height];
  }

  /** Two accumulators read off the same leaves lie on one branch, and storage decides which is longer. */
  lemma {:induction false} SharedLeavesOneBranch(cfg: Config, s: Sys, tip: Commitment)
    requires ValidConfig(cfg) && HashNamesBlock(cfg) && LeafInv(cfg, s) && Agreement(cfg, s)
    requires tip in s.store.anchors && Fold(cfg, tip).Some? && tip.height < |s.store.mmr|
    requires s.store.mmr[..tip.height + 1] == Fold(cfg, tip).value.anchor.acc
    ensures AncestorOrSelf(cfg, tip, s.lastLeaf)
  {
    var last, mmr := s.lastLeaf, s.store.mmr;
    FoldShape(cfg, tip);
    FoldShape(cfg, last);
    if tip.height <= last.height {
      assert mmr[..last.height + 1][..tip.height + 1] == mmr[..tip.height + 1];
      PrefixIsAncestor(cfg, tip, last);
    } else {
      assert mmr[..tip.height + 1][..last.height + 1] == mmr[..last.height + 1];
      PrefixIsAncestor(cfg, last, tip);
    }
  }
}
