/**
 What a folded block holds, told without the transition: when it folds, what its
 record carries, and which upgrade of its history its child runs under.
 */
module WorkerHistory {
  import opened Wrappers
  import opened Sync
  import opened Registry
  import opened AuxData
  import opened Worker
  import opened WorkerSafety
  import opened WorkerMmr

  // ---- Which update wins -------------------------------------------------------------------

  predicate UpdateAt(logs: seq<Log>, i: nat) {
    i < |logs| && logs[i].StfUpdate?
  }

  ghost predicate NoUpdate(logs: seq<Log>) {
    forall i: nat :: !UpdateAt(logs, i)
  }

  ghost predicate FirstUpdate(logs: seq<Log>, i: nat, key: PredicateKey) {
    UpdateAt(logs, i) && logs[i] == StfUpdate(key) && forall j: nat :: j < i ==> !UpdateAt(logs, j)
  }

  /** Of several updates in one block the first one counts. */
  lemma {:induction false} FirstUpdateWins(logs: seq<Log>, key: PredicateKey)
    ensures NextPredicateFromLogs(logs) == Some(key) <==> exists i: nat :: FirstUpdate(logs, i, key)
    ensures NextPredicateFromLogs(logs).None? <==> NoUpdate(logs)
  {
    if logs != [] {
      var rest := logs[1..];
      if logs[0].StfUpdate? {
        assert UpdateAt(logs, 0);
        assert logs[0].key == key ==> FirstUpdate(logs, 0, key);
      } else {
        FirstUpdateWins(rest, key);
        LaterUpdates(logs, key);
      }
    }
  }

  lemma {:induction false} LaterUpdates(logs: seq<Log>, key: PredicateKey)
    requires logs != [] && !logs[0].StfUpdate?
    ensures (exists i: nat :: FirstUpdate(logs, i, key)) <==> exists i: nat :: FirstUpdate(logs[1..], i, key)
    ensures NoUpdate(logs) <==> NoUpdate(logs[1..])
  {
    var rest := logs[1..];
    assert forall i: nat :: i > 0 ==> (UpdateAt(logs, i) <==> UpdateAt(rest, i - 1));
    assert forall i: nat :: UpdateAt(rest, i) <==> UpdateAt(logs, i + 1);
    forall i: nat | FirstUpdate(logs, i, key) ensures i > 0 && FirstUpdate(rest, i - 1, key) {
    }
    forall i: nat | FirstUpdate(rest, i, key) ensures FirstUpdate(logs, i + 1, key) {
    }
  }

  /** The predicate after a block: its first update, or the one before it. */
  ghost predicate Succeeds(before: PredicateKey, logs: seq<Log>, after: PredicateKey) {
    if NoUpdate(logs) then after == before else exists i: nat :: FirstUpdate(logs, i, after)
  }

  lemma {:induction false} CarrySucceeds(before: PredicateKey, logs: seq<Log>)
    ensures Succeeds(before, logs, Carry(before, logs))
  {
    FirstUpdateWins(logs, Carry(before, logs));
  }

  // ---- The whole history ---------------------------------------------------------------------

  /** The logs of a folded block; genesis has none. */
  ghost function LogsOf(cfg: Config, c: Commitment): seq<Log> {
    match Fold(cfg, c)
    case Some(Folded(_, _, Some(record))) => record.manifest.logs
    case _ => []
  }

  /** The ancestor of `c` at height `h` announced no update. */
  ghost predicate QuietAt(cfg: Config, c: Commitment, h: nat) {
    AncestorAt(cfg, c, h).Some? && NoUpdate(LogsOf(cfg, AncestorAt(cfg, c, h).value))
  }

  /** The nearest ancestor-or-self of `c` that announced an update, at height `h`, announced `key` first. */
  ghost predicate UpdatedLastAt(cfg: Config, c: Commitment, h: nat, key: PredicateKey) {
    && GenesisHeight(cfg) < h <= c.height && AncestorAt(cfg, c, h).Some?
    && (exists i: nat :: FirstUpdate(LogsOf(cfg, AncestorAt(cfg, c, h).value), i, key))
    && forall k: nat :: h < k <= c.height ==> QuietAt(cfg, c, k)
  }

  /**
   The predicate for a block's child is the first update of the nearest ancestor or
   self that announced any, and otherwise the genesis predicate.
   */
  lemma {:induction false} PredicateIsLastUpdate(cfg: Config, c: Commitment)
    requires ValidConfig(cfg) && Fold(cfg, c).Some?
    ensures var next := Fold(cfg, c).value.next;
      || (exists h: nat :: UpdatedLastAt(cfg, c, h, next))
      || (next == cfg.genesisPredicate && forall k: nat :: GenesisHeight(cfg) < k <= c.height ==> QuietAt(cfg, c, k))
    decreases c.height
  {
    FoldShape(cfg, c);
    if c != cfg.genesis.block {
      FoldLink(cfg, c);
      var parent := ParentOf(cfg, c).value;
      var before, next := Fold(cfg, parent).value.next, Fold(cfg, c).value.next;
      CarrySucceeds(before, LogsOf(cfg, c));
      assert AncestorAt(cfg, c, c.height) == Some(c);
      if NoUpdate(LogsOf(cfg, c)) {
        PredicateIsLastUpdate(cfg, parent);
        QuietGrows(cfg, c, parent);
      } else {
        assert UpdatedLastAt(cfg, c, c.height, next);
      }
    }
  }

  lemma {:induction false} QuietGrows(cfg: Config, c: Commitment, parent: Commitment)
    requires ParentOf(cfg, c) == Ok(parent) && NoUpdate(LogsOf(cfg, c))
    ensures forall k: nat :: k <= parent.height ==> AncestorAt(cfg, c, k) == AncestorAt(cfg, parent, k)
    ensures forall k: nat :: k <= parent.height ==> (QuietAt(cfg, c, k) <==> QuietAt(cfg, parent, k))
    ensures QuietAt(cfg, c, c.height)
    ensures forall h: nat, key :: UpdatedLastAt(cfg, parent, h, key) ==> UpdatedLastAt(cfg, c, h, key)
  {
  }

  // ---- When a block folds, and what it then carries ----------------------------------------------

  /** The spec under the parent's predicate takes the header, finds what is asked for, and executes to `e`. */
  ghost predicate Executes(cfg: Config, f: Folded, id: BlockId, specId: SpecId, e: Effects) {
    && Target(f.next, specId) in cfg.targets
    && cfg.acceptsHeader(specId, f.anchor, id)
    && (forall r :: r in cfg.requests(specId, f.anchor, id) && r.start <= r.end < |f.anchor.acc| ==>
          Readable(GenesisHeight(cfg), r.start))
    && cfg.execute(specId, f.anchor, id) == Some(e)
  }

  lemma {:induction false} TransitionExecutes(cfg: Config, f: Folded, id: BlockId, specId: SpecId)
    requires OneToOne(cfg.targets) && f.anchor.acc != [] && |f.anchor.acc| == f.anchor.block.height + 1
    requires Resolve(cfg.targets, f.next) == Some(specId) && cfg.prevOf(id) == Some(f.anchor.block.blkid)
    ensures Transition(cfg, f.anchor.acc, f.next, f.anchor, id).Ok? <==>
            exists e :: Executes(cfg, f, id, specId, e)
  {
    var acc, ranges := f.anchor.acc, Collected(cfg, specId, f.anchor, id);
    ResolveFinds(cfg.targets, f.next);
    assert acc[..|acc|] == acc;
    InStepServes(View(cfg, acc), acc, ranges);
    CollectedFoundIff(View(cfg, acc), acc, cfg.requests(specId, f.anchor, id));
    if cfg.execute(specId, f.anchor, id).Some? {
      var e := cfg.execute(specId, f.anchor, id).value;
      assert Transition(cfg, acc, f.next, f.anchor, id).Ok? <==> Executes(cfg, f, id, specId, e);
    }
  }

  /**
   A block folds on its parent if and only if some registered spec under the parent's
   predicate accepts its header, can read where its requests start, and executes it.
   */
  lemma {:induction false} FoldIff(cfg: Config, c: Commitment, parent: Commitment)
    requires ValidConfig(cfg) && ParentOf(cfg, c) == Ok(parent) && c.height > GenesisHeight(cfg)
    requires Fold(cfg, parent).Some?
    ensures Fold(cfg, c).Some? <==> exists specId, e :: Executes(cfg, Fold(cfg, parent).value, c.blkid, specId, e)
  {
    var f := Fold(cfg, parent).value;
    FoldShape(cfg, parent);
    ResolveFinds(cfg.targets, f.next);
    assert Fold(cfg, c) == FoldStep(cfg, f, c);
    match Resolve(cfg.targets, f.next)
    case Some(specId) =>
      TransitionExecutes(cfg, f, c.blkid, specId);
    case None =>
  }

  /** What it then holds: the effects of that execution, under its own name and on its parent's accumulator. */
  lemma {:induction false} FoldCarriesEffects(cfg: Config, c: Commitment, parent: Commitment, specId: SpecId,
      e: Effects)
    requires ValidConfig(cfg) && ParentOf(cfg, c) == Ok(parent) && c.height > GenesisHeight(cfg)
    requires Fold(cfg, parent).Some? && Executes(cfg, Fold(cfg, parent).value, c.blkid, specId, e)
    ensures var pre, m := Fold(cfg, parent).value, Manifest(c.height, c.blkid, e.wtxidsRoot, e.logs);
      && Fold(cfg, c).Some?
      && Fold(cfg, c).value.anchor == Anchor(c, specId, pre.anchor.acc + [cfg.hash(m)], e.rest)
      && Fold(cfg, c).value.record == Some(Record(m, e.aux))
      && Succeeds(pre.next, e.logs, Fold(cfg, c).value.next)
  {
    var f := Fold(cfg, parent).value;
    FoldShape(cfg, parent);
    FoldIff(cfg, c, parent);
    FoldLink(cfg, c);
    ResolveFinds(cfg.targets, f.next);
    CarrySucceeds(f.next, e.logs);
  }

  /** The fold starts at genesis and nowhere else, and a parent is the block that L1 names, one height down. */
  lemma {:induction false} FoldStarts(cfg: Config, c: Commitment, parent: Commitment)
    ensures Fold(cfg, cfg.genesis.block) == Some(Folded(cfg.genesis, cfg.genesisPredicate, None))
    ensures c.height <= GenesisHeight(cfg) && c != cfg.genesis.block ==> Fold(cfg, c).None?
    ensures ParentOf(cfg, c) == Ok(parent) <==>
            parent.height + 1 == c.height && cfg.prevOf(c.blkid) == Some(parent.blkid)
  {
  }

  // ---- Why a block is refused, and a predicate recovered ----------------------------------------------

  lemma {:induction false} InTargetsIff(targets: seq<Target>, key: PredicateKey, specId: SpecId)
    requires OneToOne(targets)
    ensures Target(key, specId) in targets <==> Resolve(targets, key) == Some(specId)
    ensures Target(key, specId) in targets <==> PredicateFor(targets, specId) == Some(key)
    ensures (forall t :: t in targets ==> t.key != key) <==> Resolve(targets, key).None?
  {
    ResolveFinds(targets, key);
    PredicateForFinds(targets, specId);
  }

  /** Some request that the collector keeps starts at a leaf that cannot be read. */
  ghost predicate AsksUnreadable(cfg: Config, specId: SpecId, pre: Anchor, id: BlockId) {
    exists r :: r in cfg.requests(specId, pre, id) && r.start <= r.end < |pre.acc| &&
                !Readable(GenesisHeight(cfg), r.start)
  }

  /**
   The errors in their order: no spec for the predicate; then a header that does not
   follow; then a request that cannot be read; and only then anything else.
   */
  lemma {:induction false} TransitionErrorIff(cfg: Config, leaves: seq<Hash>, key: PredicateKey, pre: Anchor,
      id: BlockId,
      specId: SpecId)
    requires OneToOne(cfg.targets) && |pre.acc| == pre.block.height + 1 <= |leaves|
    requires Target(key, specId) in cfg.targets || forall t :: t in cfg.targets ==> t.key != key
    ensures var r := Transition(cfg, leaves, key, pre, id);
      var follows := cfg.prevOf(id) == Some(pre.block.blkid) && cfg.acceptsHeader(specId, pre, id);
      && (r == Err(UnsupportedExecutionPredicate) <==> Target(key, specId) !in cfg.targets)
      && (r == Err(AuxUnresolved) <==>
            Target(key, specId) in cfg.targets && follows && AsksUnreadable(cfg, specId, pre, id))
      && (r.Err? && r.error !in {UnsupportedExecutionPredicate, AuxUnresolved} ==> r == Err(AsmError))
      && (Target(key, specId) in cfg.targets && !follows ==> r == Err(AsmError))
  {
    InTargetsIff(cfg.targets, key, specId);
    CollectedFoundIff(View(cfg, leaves), pre.acc, cfg.requests(specId, pre, id));
  }

  /**
   A predicate is recovered from an anchor exactly so: the genesis predicate for
   genesis; above it, from the block's own manifest, its first update, or else the
   predicate registered for the spec that produced the anchor.
   */
  lemma {:induction false} RecoverIff(cfg: Config, manifests: map<Commitment, Manifest>, anchor: Anchor,
      key: PredicateKey)
    requires OneToOne(cfg.targets)
    ensures var block := anchor.block;
      Recover(cfg, manifests, anchor) == Ok(key) <==>
      if block == cfg.genesis.block then key == cfg.genesisPredicate
      else
        && block.height > GenesisHeight(cfg) && block in manifests
        && var m := manifests[block];
           && m.height == block.height && m.blkid == block.blkid
           && if NoUpdate(m.logs) then Target(key, anchor.specId) in cfg.targets
              else exists i: nat :: FirstUpdate(m.logs, i, key)
  {
    InTargetsIff(cfg.targets, key, anchor.specId);
    if anchor.block in manifests {
      FirstUpdateWins(manifests[anchor.block].logs, key);
    }
  }
}
