/**
 What holds in every state the worker can reach, through reorgs, crashes between
 any two writes, and restarts.
 */
module WorkerSafety {
  import opened Wrappers
  import opened Sync
  import opened Registry
  import opened AuxData
  import opened Worker

  // ---- The fold ------------------------------------------------------------------------

  /** A folded block is at or above genesis, names itself, and has one leaf per height. */
  lemma {:induction false} FoldShape(cfg: Config, c: Commitment)
    requires ValidConfig(cfg) && Fold(cfg, c).Some?
    ensures var f := Fold(cfg, c).value;
      && f.anchor.block == c && c.height >= GenesisHeight(cfg)
      && |f.anchor.acc| == c.height + 1
      && (c.height == GenesisHeight(cfg) ==> c == cfg.genesis.block)
      && (f.record.Some? <==> c != cfg.genesis.block)
      && (f.record.Some? ==> f.record.value.manifest.height == c.height && f.record.value.manifest.blkid == c.blkid)
    decreases c.height
  {
    if c != cfg.genesis.block {
      FoldShape(cfg, ParentOf(cfg, c).value);
    }
  }

  /** One link of the fold. */
  lemma {:induction false} FoldLink(cfg: Config, c: Commitment)
    requires ValidConfig(cfg) && Fold(cfg, c).Some? && c != cfg.genesis.block
    ensures ParentOf(cfg, c).Ok? && Fold(cfg, ParentOf(cfg, c).value).Some?
    ensures ParentOf(cfg, c).value.height + 1 == c.height
    ensures var parent, f := Fold(cfg, ParentOf(cfg, c).value).value, Fold(cfg, c).value;
      && FoldStep(cfg, parent, c) == Some(f)
      && f.record.Some?
      && Resolve(cfg.targets, parent.next) == Some(f.anchor.specId)
      && f.next == Carry(parent.next, f.record.value.manifest.logs)
      && f.anchor.acc == parent.anchor.acc + [cfg.hash(f.record.value.manifest)]
  {
  }

  /** The accumulator's height check holds on every block of every chain. */
  lemma {:induction false} HeightAssertionNeverFires(cfg: Config, leaves: seq<Hash>, parent: Commitment, id: BlockId)
    requires ValidConfig(cfg) && Fold(cfg, parent).Some?
    ensures var f := Fold(cfg, parent).value;
      Transition(cfg, leaves, f.next, f.anchor, id) != Err(HeightAssertion)
  {
    FoldShape(cfg, parent);
  }

  /**
   What the store adds: with leaves enough, a block executes exactly when it would
   over the accumulator's own leaves and the store serves what it asks for. The
   outcome is then the same, and a block that only the store stops is refused.
   */
  lemma {:induction false} TransitionIff(cfg: Config, leaves: seq<Hash>, key: PredicateKey, pre: Anchor, id: BlockId)
    requires |pre.acc| <= |leaves|
    ensures var here, own := Transition(cfg, leaves, key, pre, id), Transition(cfg, pre.acc, key, pre, id);
      && (here.Ok? <==> own.Ok? && Serves(View(cfg, leaves), pre.acc, Requests(cfg, key, pre, id)))
      && (here.Ok? ==> here == own)
      && (own.Ok? && here.Err? ==> here == Err(AsmError))
  {
    var ranges := Requests(cfg, key, pre, id);
    assert pre.acc[..|pre.acc|] == pre.acc;
    InStepServes(View(cfg, pre.acc), pre.acc, ranges);
    FoundElsewhere(View(cfg, leaves), View(cfg, pre.acc), pre.acc, ranges);
  }

  /** The block at height `h` on the ancestry of `c`. */
  function AncestorAt(cfg: Config, c: Commitment, h: nat): Option<Commitment>
    decreases c.height
  {
    if c.height == h then Some(c)
    else if c.height < h then None
    else match ParentOf(cfg, c)
      case Err(_) => None
      case Ok(parent) => AncestorAt(cfg, parent, h)
  }

  predicate AncestorOrSelf(cfg: Config, a: Commitment, c: Commitment) {
    AncestorAt(cfg, c, a.height) == Some(a)
  }

  /** Leaf `h` of a folded accumulator is the manifest hash of the ancestor at `h`. */
  lemma {:induction false} AccumulatorIsAncestry(cfg: Config, c: Commitment, h: nat)
    requires ValidConfig(cfg) && Fold(cfg, c).Some? && h <= c.height
    ensures |Fold(cfg, c).value.anchor.acc| == c.height + 1
    ensures h <= GenesisHeight(cfg) ==> Fold(cfg, c).value.anchor.acc[h] == cfg.genesis.acc[h]
    ensures h >= GenesisHeight(cfg) ==>
      && AncestorAt(cfg, c, h).Some?
      && var a := AncestorAt(cfg, c, h).value;
         && a.height == h
         && Fold(cfg, a).Some?
         && Fold(cfg, c).value.anchor.acc[..h + 1] == Fold(cfg, a).value.anchor.acc
         && (h > GenesisHeight(cfg) ==>
              && Fold(cfg, a).value.record.Some?
              && Fold(cfg, c).value.anchor.acc[h] == cfg.hash(Fold(cfg, a).value.record.value.manifest))
    decreases c.height
  {
    FoldShape(cfg, c);
    var acc := Fold(cfg, c).value.anchor.acc;
    if c == cfg.genesis.block {
      assert acc[..|acc|] == acc;
    } else {
      FoldLink(cfg, c);
      var parent := ParentOf(cfg, c).value;
      FoldShape(cfg, parent);
      if h == c.height {
        assert acc[..h + 1] == acc;
      } else {
        AccumulatorIsAncestry(cfg, parent, h);
        assert acc[..h + 1] == Fold(cfg, parent).value.anchor.acc[..h + 1];
      }
    }
  }

  // ---- The stores --------------------------------------------------------------------------

  /** Each stored anchor is the fold of its own ancestry, which is stored with it. */
  ghost predicate AnchorsExact(cfg: Config, anchors: map<Commitment, Anchor>) {
    forall c :: c in anchors ==>
      && Fold(cfg, c).Some?
      && anchors[c] == Fold(cfg, c).value.anchor
      && (c != cfg.genesis.block ==> ParentOf(cfg, c).Ok? && ParentOf(cfg, c).value in anchors)
  }

  ghost predicate ManifestsExact(cfg: Config, manifests: map<Commitment, Manifest>) {
    forall c :: c in manifests ==>
      && Fold(cfg, c).Some? && Fold(cfg, c).value.record.Some?
      && manifests[c] == Fold(cfg, c).value.record.value.manifest
  }

  ghost predicate AuxExact(cfg: Config, aux: map<Commitment, nat>) {
    forall c :: c in aux ==>
      && Fold(cfg, c).Some? && Fold(cfg, c).value.record.Some?
      && aux[c] == Fold(cfg, c).value.record.value.aux
  }

  /** An anchored block has its manifest and aux data under the same commitment. */
  ghost predicate RecordsPresent(cfg: Config, st: Store) {
    forall c :: c in st.anchors && c != cfg.genesis.block ==> c in st.manifests && c in st.aux
  }

  /** The MMR is empty before the first anchor; then it starts with genesis and reaches every anchor. */
  ghost predicate LeavesReach(cfg: Config, st: Store) {
    && (st.mmr == [] ==> st.anchors == map[])
    && (st.mmr != [] ==> |st.mmr| > GenesisHeight(cfg) && st.mmr[..GenesisHeight(cfg) + 1] == cfg.genesis.acc)
    && (forall c :: c in st.anchors ==> c.height < |st.mmr|)
  }

  ghost predicate StoreInv(cfg: Config, st: Store) {
    && AnchorsExact(cfg, st.anchors)
    && ManifestsExact(cfg, st.manifests)
    && AuxExact(cfg, st.aux)
    && RecordsPresent(cfg, st)
    && LeavesReach(cfg, st)
    && (st.anchors != map[] ==> cfg.genesis.block in st.anchors)
  }

  // ---- Memory and control ------------------------------------------------------------------

  /** Memory holds a stored block, its anchor, and the predicate of its whole history. */
  ghost predicate MemInv(cfg: Config, st: Store, mem: Mem) {
    && mem.tip in st.anchors
    && mem.anchor == st.anchors[mem.tip]
    && Fold(cfg, mem.tip).Some?
    && mem.next == Fold(cfg, mem.tip).value.next
  }

  /** The blocks still to apply: a parent-linked chain above `tip`, none of it anchored. */
  ghost predicate TodoInv(cfg: Config, anchors: map<Commitment, Anchor>, tip: Commitment, todo: seq<Commitment>) {
    && (todo != [] ==> ParentOf(cfg, todo[0]) == Ok(tip) && todo[0].height > GenesisHeight(cfg))
    && (forall i :: 0 < i < |todo| ==> ParentOf(cfg, todo[i]) == Ok(todo[i - 1]))
    && (forall i :: 0 <= i < |todo| ==> todo[i] !in anchors && todo[i].height == tip.height + 1 + i)
  }

  ghost predicate RunInv(cfg: Config, c: Commitment, run: Executed) {
    && Fold(cfg, c).Some?
    && Fold(cfg, c).value.anchor == run.output.state
    && Fold(cfg, c).value.record == Some(Record(run.output.manifest, run.aux))
  }

  ghost predicate BootInv(cfg: Config, st: Store, latest: Option<Commitment>, boot: BootStage) {
    && (latest.None? && !boot.Resume? ==> st.anchors == map[])
    && (latest.None? && boot.Resume? ==> cfg.genesis.block in st.anchors)
    && (latest.Some? ==> latest.value in st.anchors)
    && (boot.StoreGenesis? || boot.Resume? ==> st.mmr != [])
  }

  ghost predicate ApplyInv(cfg: Config, s: Sys)
    requires s.phase.Applying?
  {
    var p, st := s.phase, s.store;
    && p.todo != []
    && MemInv(cfg, st, p.mem)
    && RunInv(cfg, p.todo[0], p.run)
    && ParentOf(cfg, p.todo[0]) == Ok(p.mem.tip)
    && (!p.stage.NothingWritten? ==> p.todo[0] in st.manifests)
    && (p.stage.LeafWritten? || p.stage.AuxWritten? || p.stage.AnchorWritten? ==>
          p.todo[0].height < |st.mmr| && s.lastLeaf == p.todo[0])
    && (p.stage.AuxWritten? || p.stage.AnchorWritten? ==> p.todo[0] in st.aux)
    && (if p.stage.AnchorWritten? then
          && p.todo[0] in st.anchors && p.todo[0] !in s.emitted
          && TodoInv(cfg, st.anchors, p.todo[0], p.todo[1..])
        else TodoInv(cfg, st.anchors, p.mem.tip, p.todo))
  }

  ghost predicate PhaseInv(cfg: Config, s: Sys) {
    match s.phase
    case Down => true
    case Booting(latest, boot) => BootInv(cfg, s.store, latest, boot)
    case Idle(mem) => MemInv(cfg, s.store, mem)
    case Syncing(mem, todo) => todo != [] && MemInv(cfg, s.store, mem) && TodoInv(cfg, s.store.anchors, mem.tip, todo)
    case Applying(_, _, _, _) => ApplyInv(cfg, s)
  }

  /** Subscribers only ever heard of durable blocks, and of each at most once. */
  ghost predicate EmittedInv(s: Sys) {
    && (forall i :: 0 <= i < |s.emitted| ==> s.emitted[i] in s.store.anchors)
    && (forall i, j :: 0 <= i < j < |s.emitted| ==> s.emitted[i] != s.emitted[j])
  }

  ghost predicate Inv(cfg: Config, s: Sys) {
    StoreInv(cfg, s.store) && PhaseInv(cfg, s) && EmittedInv(s)
  }

  // ---- Recovery ------------------------------------------------------------------------------

  /** One anchor and one manifest give the predicate of the whole upgrade history. */
  lemma {:induction false} RecoverRefinesHistory(cfg: Config, st: Store, c: Commitment)
    requires ValidConfig(cfg) && StoreInv(cfg, st) && c in st.anchors
    ensures Recover(cfg, st.manifests, st.anchors[c]) == Ok(Fold(cfg, c).value.next)
  {
    FoldShape(cfg, c);
    if c != cfg.genesis.block {
      FoldLink(cfg, c);
      var parent, f := Fold(cfg, ParentOf(cfg, c).value).value, Fold(cfg, c).value;
      LookupsInverse(cfg.targets, parent.next, f.anchor.specId);
    }
  }

  // ---- Planning --------------------------------------------------------------------------------

  /** A non-empty plan starts at a stored ancestor and lists the unanchored path above it. */
  lemma {:induction false} PlanIsPath(cfg: Config, anchors: map<Commitment, Anchor>, target: Commitment)
    requires Plan(cfg, anchors, target).Ok?
    ensures var plan := Plan(cfg, anchors, target).value;
      && plan.baseBlock in anchors && plan.baseState == anchors[plan.baseBlock]
      && TodoInv(cfg, anchors, plan.baseBlock, Reversed(plan.pending))
      && (plan.pending == [] ==> plan.baseBlock == target)
      && (plan.pending != [] ==> plan.pending[0] == target)
  {
    WalkIsPath(cfg, anchors, target, target);
  }

  lemma {:induction false} WalkIsPath(cfg: Config, anchors: map<Commitment, Anchor>, cursor: Commitment,
      tip: Commitment)
    requires Walk(cursor, tip, GenesisHeight(cfg), BaseAt(anchors), Links(cfg)).Ok?
    ensures var plan := Walk(cursor, tip, GenesisHeight(cfg), BaseAt(anchors), Links(cfg)).value;
      && plan.baseBlock in anchors && plan.baseState == anchors[plan.baseBlock]
      && TodoInv(cfg, anchors, plan.baseBlock, Reversed(plan.pending))
      && (plan.pending == [] ==> plan.baseBlock == cursor)
      && (plan.pending != [] ==> plan.pending[0] == cursor)
    decreases cursor.height
  {
    if cursor !in anchors {
      var parent := ParentOf(cfg, cursor).value;
      WalkIsPath(cfg, anchors, parent, tip);
      var below := Walk(parent, tip, GenesisHeight(cfg), BaseAt(anchors), Links(cfg)).value;
      assert ([cursor] + below.pending)[1..] == below.pending;
      PathGrows(cfg, anchors, below.baseBlock, Reversed(below.pending), cursor);
    }
  }

  /** A path grows by a child of its last block. */
  lemma {:induction false} PathGrows(cfg: Config, anchors: map<Commitment, Anchor>, base: Commitment,
      todo: seq<Commitment>, c: Commitment)
    requires TodoInv(cfg, anchors, base, todo)
    requires c !in anchors && c.height > GenesisHeight(cfg)
    requires ParentOf(cfg, c) == Ok(if todo == [] then base else todo[|todo| - 1])
    ensures TodoInv(cfg, anchors, base, todo + [c])
  {
  }

  // ---- Every step keeps the invariant -------------------------------------------------------------

  /** An anchor that is its block's fold may be stored once its parent's is. */
  lemma {:induction false} AnchorsExactGrows(cfg: Config, anchors: map<Commitment, Anchor>, c: Commitment,
      anchor: Anchor)
    requires AnchorsExact(cfg, anchors) && Fold(cfg, c).Some? && anchor == Fold(cfg, c).value.anchor
    requires c != cfg.genesis.block ==> ParentOf(cfg, c).Ok? && ParentOf(cfg, c).value in anchors
    ensures AnchorsExact(cfg, anchors[c := anchor])
  {
    var grown := anchors[c := anchor];
    forall k | k in grown
      ensures Fold(cfg, k).Some? && grown[k] == Fold(cfg, k).value.anchor
      ensures k != cfg.genesis.block ==> ParentOf(cfg, k).Ok? && ParentOf(cfg, k).value in grown
    {
      assert k == c || k in anchors;
    }
  }

  /** A block's anchor may be stored once the rest of its record and its parent's anchor are. */
  lemma {:induction false} AnchorKeepsStoreInv(cfg: Config, st: Store, c: Commitment, anchor: Anchor)
    requires ValidConfig(cfg) && StoreInv(cfg, st)
    requires Fold(cfg, c).Some? && anchor == Fold(cfg, c).value.anchor && c.height < |st.mmr|
    requires c != cfg.genesis.block ==>
      ParentOf(cfg, c).Ok? && ParentOf(cfg, c).value in st.anchors && c in st.manifests && c in st.aux
    ensures StoreInv(cfg, st.(anchors := st.anchors[c := anchor]))
  {
    var grown := st.(anchors := st.anchors[c := anchor]);
    AnchorsExactGrows(cfg, st.anchors, c, anchor);
    assert RecordsPresent(cfg, grown) && LeavesReach(cfg, grown);
  }

  /** Genesis may be stored at any time once the MMR is seeded or the store is in use. */
  lemma {:induction false} StoringGenesisKeepsInv(cfg: Config, st: Store)
    requires ValidConfig(cfg) && StoreInv(cfg, st) && st.mmr != []
    ensures StoreInv(cfg, st.(anchors := st.anchors[cfg.genesis.block := cfg.genesis]))
  {
    AnchorKeepsStoreInv(cfg, st, cfg.genesis.block, cfg.genesis);
  }

  lemma {:induction false} ResumeKeepsInv(cfg: Config, s: Sys)
    requires ValidConfig(cfg) && Inv(cfg, s) && s.phase.Booting? && s.phase.boot.Resume?
    ensures var anchor := ResumeAnchor(cfg, s);
      && Recover(cfg, s.store.manifests, anchor).Ok?
      && MemInv(cfg, s.store, Mem(anchor.block, anchor, Recover(cfg, s.store.manifests, anchor).value))
  {
    var c := if s.phase.latest.Some? then s.phase.latest.value else cfg.genesis.block;
    FoldShape(cfg, c);
    assert ResumeAnchor(cfg, s) == s.store.anchors[c];
    RecoverRefinesHistory(cfg, s.store, c);
  }

  lemma {:induction false} BootStepKeepsInv(cfg: Config, s: Sys, s': Sys)
    requires ValidConfig(cfg) && Inv(cfg, s) && s.phase.Booting?
    requires NextBoot(cfg, s) == Some(s')
    ensures Inv(cfg, s')
  {
    match s.phase.boot
    case CheckGenesis =>
    case SeedMmr =>
      assert cfg.genesis.acc[..GenesisHeight(cfg) + 1] == cfg.genesis.acc;
    case StoreGenesis => StoringGenesisKeepsInv(cfg, s.store);
    case Resume => ResumeKeepsInv(cfg, s);
  }

  lemma {:induction false} SubmitKeepsInv(cfg: Config, s: Sys, target: BlockId)
    requires ValidConfig(cfg) && Inv(cfg, s) && s.phase.Idle?
    requires PlanFor(cfg, s.store, s.phase.mem, target).Ok?
    requires PlanFor(cfg, s.store, s.phase.mem, target).value.Some?
    ensures Inv(cfg, s.(phase := PlanFor(cfg, s.store, s.phase.mem, target).value.value))
  {
    var c := Commitment(cfg.heightOf(target).value, target);
    PlanIsPath(cfg, s.store.anchors, c);
    var plan := Plan(cfg, s.store.anchors, c).value;
    RecoverRefinesHistory(cfg, s.store, plan.baseBlock);
  }

  /** The leaves serve what `c` asks of its parent's chain. */
  ghost predicate ServesChild(cfg: Config, leaves: seq<Hash>, c: Commitment, parent: Commitment)
    requires Fold(cfg, parent).Some?
  {
    var f := Fold(cfg, parent).value;
    Serves(View(cfg, leaves), f.anchor.acc, Requests(cfg, f.next, f.anchor, c.blkid))
  }

  /** Some block's requests, on its own chain, are not served by the leaves. */
  ghost predicate Unserved(cfg: Config, leaves: seq<Hash>, c: Commitment) {
    && ParentOf(cfg, c).Ok? && Fold(cfg, ParentOf(cfg, c).value).Some?
    && !ServesChild(cfg, leaves, c, ParentOf(cfg, c).value)
  }

  /** The store serves what the block asks of the chain below it. */
  ghost predicate StoreServes(cfg: Config, st: Store, mem: Mem, c: Commitment) {
    Serves(View(cfg, st.mmr), mem.anchor.acc, Requests(cfg, mem.next, mem.anchor, c.blkid))
  }

  /** The next block executes exactly when it folds and the store serves it, and then yields the fold's outcome. */
  lemma {:induction false} ExecuteIff(cfg: Config, st: Store, mem: Mem, c: Commitment)
    requires ValidConfig(cfg) && StoreInv(cfg, st) && MemInv(cfg, st, mem)
    requires ParentOf(cfg, c) == Ok(mem.tip) && c.height > GenesisHeight(cfg)
    ensures var here := Transition(cfg, st.mmr, mem.next, mem.anchor, c.blkid);
      && (here.Ok? <==> Fold(cfg, c).Some? && StoreServes(cfg, st, mem, c))
      && (here.Ok? ==> RunInv(cfg, c, here.value)
                       && Fold(cfg, c).value.next == Carry(mem.next, here.value.output.manifest.logs))
      && (here.Err? && Fold(cfg, c).Some? ==> here == Err(AsmError))
  {
    FoldShape(cfg, mem.tip);
    TransitionIff(cfg, st.mmr, mem.next, mem.anchor, c.blkid);
    assert Fold(cfg, c) == FoldStep(cfg, Fold(cfg, mem.tip).value, c);
  }

  lemma {:induction false} ExecuteKeepsInv(cfg: Config, s: Sys, run: Executed)
    requires ValidConfig(cfg) && Inv(cfg, s) && s.phase.Syncing?
    requires Transition(cfg, s.store.mmr, s.phase.mem.next, s.phase.mem.anchor, s.phase.todo[0].blkid) == Ok(run)
    ensures Inv(cfg, s.(phase := Applying(s.phase.mem, s.phase.todo, run, NothingWritten)))
  {
    ExecuteIff(cfg, s.store, s.phase.mem, s.phase.todo[0]);
  }

  /** The leaf of the block being applied is never past the end nor at genesis. */
  lemma {:induction false} LeafNeverRejected(cfg: Config, s: Sys)
    requires ValidConfig(cfg) && Inv(cfg, s) && s.phase.Applying?
    ensures var m := s.phase.run.output.manifest;
      && GenesisHeight(cfg) < m.height <= |s.store.mmr|
      && PutLeaf(cfg, s.store.mmr, m.height, cfg.hash(m)).Some?
  {
    FoldShape(cfg, s.phase.todo[0]);
    FoldLink(cfg, s.phase.todo[0]);
  }

  lemma {:induction false} WriteKeepsInv(cfg: Config, s: Sys, s': Sys)
    requires ValidConfig(cfg) && Inv(cfg, s) && s.phase.Applying? && NextWrite(cfg, s) == Some(s')
    ensures Inv(cfg, s')
  {
    var c := s.phase.todo[0];
    FoldShape(cfg, c);
    FoldLink(cfg, c);
    LeafNeverRejected(cfg, s);
    match s.phase.stage
    case NothingWritten =>
    case ManifestWritten =>
      LeafKeepsReach(cfg, s.store, s'.store.mmr, c.height, cfg.hash(s.phase.run.output.manifest));
    case LeafWritten =>
    case AuxWritten => AnchorKeepsInv(cfg, s, s');
  }

  lemma {:induction false} LeafKeepsReach(cfg: Config, st: Store, mmr: seq<Hash>, height: nat, leaf: Hash)
    requires ValidConfig(cfg) && LeavesReach(cfg, st) && PutLeaf(cfg, st.mmr, height, leaf) == Some(mmr)
    ensures LeavesReach(cfg, st.(mmr := mmr)) && height < |mmr|
    ensures |st.mmr| <= |mmr| && mmr[height] == leaf && mmr[..height] == st.mmr[..height]
  {
    assert mmr[..GenesisHeight(cfg) + 1] == st.mmr[..GenesisHeight(cfg) + 1];
  }

  lemma {:induction false} AnchorKeepsInv(cfg: Config, s: Sys, s': Sys)
    requires ValidConfig(cfg) && Inv(cfg, s) && s.phase.Applying? && NextWrite(cfg, s) == Some(s')
    requires s.phase.stage.AuxWritten?
    ensures Inv(cfg, s')
  {
    var c, anchor := s.phase.todo[0], s.phase.run.output.state;
    assert anchor.block == c && c != cfg.genesis.block by {
      FoldShape(cfg, c);
    }
    AnchorKeepsStoreInv(cfg, s.store, c, anchor);
    AnchoredBlockLeavesPath(cfg, s.store.anchors, s.phase.mem.tip, s.phase.todo, anchor);
  }

  /** The rest of the path stands above the block just anchored. */
  lemma {:induction false} AnchoredBlockLeavesPath(cfg: Config, anchors: map<Commitment, Anchor>, tip: Commitment,
      todo: seq<Commitment>, anchor: Anchor)
    requires TodoInv(cfg, anchors, tip, todo) && todo != []
    ensures TodoInv(cfg, anchors[todo[0] := anchor], todo[0], todo[1..])
  {
    var rest := todo[1..];
    forall i | 0 <= i < |rest| ensures rest[i] == todo[i + 1] && rest[i].height == todo[0].height + 1 + i {
    }
    forall i | 0 < i < |rest| ensures ParentOf(cfg, rest[i]) == Ok(rest[i - 1]) {
      assert rest[i] == todo[i + 1] && rest[i - 1] == todo[i];
    }
  }

  lemma {:induction false} AcceptKeepsInv(cfg: Config, s: Sys, s': Sys)
    requires ValidConfig(cfg) && Inv(cfg, s) && s.phase.Applying? && s.phase.stage.AnchorWritten?
    requires s' == AfterAccept(s)
    ensures Inv(cfg, s')
  {
    var c := s.phase.todo[0];
    FoldShape(cfg, c);
    FoldLink(cfg, c);
  }

  lemma {:induction false} StepKeepsInv(cfg: Config, s: Sys, e: Event)
    requires ValidConfig(cfg) && Inv(cfg, s) && Next(cfg, s, e).Some?
    ensures Inv(cfg, Next(cfg, s, e).value)
  {
    var s' := Next(cfg, s, e).value;
    match e
    case Crash =>
    case Boot(_) =>
    case BootStep => BootStepKeepsInv(cfg, s, s');
    case Submit(target) =>
      if PlanFor(cfg, s.store, s.phase.mem, target).value.Some? {
        SubmitKeepsInv(cfg, s, target);
      }
    case Execute => ExecuteKeepsInv(cfg, s, s'.phase.run);
    case Write => WriteKeepsInv(cfg, s, s');
    case Accept => AcceptKeepsInv(cfg, s, s');
  }

  /** The invariant holds after every run. */
  lemma {:induction false} RunKeepsInv(cfg: Config, events: seq<Event>)
    requires ValidConfig(cfg) && Run(cfg, events).Some?
    ensures Inv(cfg, Run(cfg, events).value)
  {
    if events != [] {
      var before := events[..|events| - 1];
      RunKeepsInv(cfg, before);
      StepKeepsInv(cfg, Run(cfg, before).value, events[|events| - 1]);
    }
  }

  // ---- The results, run by run ----------------------------------------------------------------------

  lemma {:induction false} AncestorsStored(cfg: Config, st: Store, c: Commitment, h: nat)
    requires ValidConfig(cfg) && StoreInv(cfg, st) && c in st.anchors
    requires GenesisHeight(cfg) <= h <= c.height
    ensures AncestorAt(cfg, c, h).Some? && AncestorAt(cfg, c, h).value in st.anchors
    decreases c.height
  {
    FoldShape(cfg, c);
    if h < c.height {
      FoldLink(cfg, c);
      AncestorsStored(cfg, st, ParentOf(cfg, c).value, h);
    }
  }

  /**
   Whatever was interrupted: a stored anchor is the STF fold along its own parent
   links, all its ancestors down to genesis are stored, and unless it is genesis
   its own manifest and aux data are stored under the same commitment.
   */
  lemma {:induction false} StoredAnchorIsComplete(cfg: Config, events: seq<Event>, c: Commitment, h: nat)
    requires ValidConfig(cfg) && Run(cfg, events).Some? && c in Run(cfg, events).value.store.anchors
    requires GenesisHeight(cfg) <= h <= c.height
    ensures var st := Run(cfg, events).value.store;
      && Fold(cfg, c).Some? && st.anchors[c] == Fold(cfg, c).value.anchor && st.anchors[c].block == c
      && AncestorAt(cfg, c, h).Some? && AncestorAt(cfg, c, h).value in st.anchors
      && (c != cfg.genesis.block ==>
            && c in st.manifests && c in st.aux
            && Fold(cfg, c).value.record == Some(Record(st.manifests[c], st.aux[c])))
  {
    RunKeepsInv(cfg, events);
    FoldShape(cfg, c);
    AncestorsStored(cfg, Run(cfg, events).value.store, c, h);
  }

  /** Subscribers hear only of durable blocks, and of none twice, across all restarts. */
  lemma {:induction false} EmittedOnceAndDurable(cfg: Config, events: seq<Event>, i: nat)
    requires ValidConfig(cfg) && Run(cfg, events).Some? && i < |Run(cfg, events).value.emitted|
    ensures var s := Run(cfg, events).value;
      && s.emitted[i] in s.store.anchors
      && forall j :: 0 <= j < |s.emitted| && j != i ==> s.emitted[j] != s.emitted[i]
  {
    RunKeepsInv(cfg, events);
  }

  /** The predicate in memory is that of the tip's whole upgrade history, and one manifest recovers it. */
  lemma {:induction false} PredicateFollowsHistory(cfg: Config, events: seq<Event>)
    requires ValidConfig(cfg) && Run(cfg, events).Some?
    requires var p := Run(cfg, events).value.phase; p.Idle? || p.Syncing? || p.Applying?
    ensures var s := Run(cfg, events).value;
      && Fold(cfg, s.phase.mem.tip).Some?
      && s.phase.mem.anchor == Fold(cfg, s.phase.mem.tip).value.anchor
      && s.phase.mem.next == Fold(cfg, s.phase.mem.tip).value.next
      && Recover(cfg, s.store.manifests, s.phase.mem.anchor) == Ok(s.phase.mem.next)
  {
    RunKeepsInv(cfg, events);
    var s := Run(cfg, events).value;
    RecoverRefinesHistory(cfg, s.store, s.phase.mem.tip);
  }

  /** No reachable state leaves a gap: leaves reach past every anchor and no leaf write is refused. */
  lemma {:induction false} NoGapInLeaves(cfg: Config, events: seq<Event>, c: Commitment)
    requires ValidConfig(cfg) && Run(cfg, events).Some?
    ensures var s := Run(cfg, events).value;
      && (c in s.store.anchors ==> c.height < |s.store.mmr|)
      && (s.phase.Applying? ==>
            var m := s.phase.run.output.manifest;
            && GenesisHeight(cfg) < m.height <= |s.store.mmr|
            && PutLeaf(cfg, s.store.mmr, m.height, cfg.hash(m)).Some?)
  {
    RunKeepsInv(cfg, events);
    var s := Run(cfg, events).value;
    if s.phase.Applying? {
      LeafNeverRejected(cfg, s);
    }
  }

  /** No boot stage ever finds the stores in a state it refuses. */
  lemma {:induction false} BootNeverRefused(cfg: Config, s: Sys)
    requires ValidConfig(cfg) && Inv(cfg, s) && s.phase.Booting?
    ensures BootError(cfg, s).None?
  {
    match s.phase.boot
    case CheckGenesis =>
    case SeedMmr =>
    case StoreGenesis =>
    case Resume => ResumeKeepsInv(cfg, s);
  }

  /** A restart from any reachable store runs through and resumes at the latest anchor. */
  lemma {:induction false} RestartNeverWedges(cfg: Config, events: seq<Event>, latest: Option<Commitment>)
    requires ValidConfig(cfg) && Run(cfg, events).Some?
    requires Run(cfg, events).value.phase.Down?
    requires IsLatest(Run(cfg, events).value.store.anchors, latest)
    ensures var restart := events + [Boot(latest)] + Steps(4);
      && Run(cfg, restart).Some?
      && Run(cfg, restart).value.phase.Idle?
      && Run(cfg, restart).value.phase.mem.tip == if latest.Some? then latest.value else cfg.genesis.block
  {
    RunKeepsInv(cfg, events);
    var booted := RunSnoc(cfg, events, Boot(latest));
    BootCompletes(cfg, booted);
  }

  function StagesLeft(boot: BootStage): nat {
    match boot
    case CheckGenesis => 4
    case SeedMmr => 3
    case StoreGenesis => 2
    case Resume => 1
  }

  function Steps(n: nat): seq<Event> {
    if n == 0 then [] else [BootStep] + Steps(n - 1)
  }

  /** From any boot stage the remaining ones run through. */
  lemma {:induction false} BootCompletes(cfg: Config, events: seq<Event>)
    requires ValidConfig(cfg) && Run(cfg, events).Some? && Run(cfg, events).value.phase.Booting?
    ensures var p := Run(cfg, events).value.phase;
      var r := Run(cfg, events + Steps(StagesLeft(p.boot)));
      && r.Some? && r.value.phase.Idle?
      && r.value.phase.mem.tip == if p.latest.Some? then p.latest.value else cfg.genesis.block
    decreases StagesLeft(Run(cfg, events).value.phase.boot)
  {
    BootAdvances(cfg, events);
    var n := StagesLeft(Run(cfg, events).value.phase.boot);
    var more := RunBoot(cfg, events);
    StepsFirst(events, n);
    if n > 1 {
      BootCompletes(cfg, more);
    }
  }

  lemma {:induction false} StepsFirst(events: seq<Event>, n: nat)
    requires n > 0
    ensures events + Steps(n) == (events + [BootStep]) + Steps(n - 1)
    ensures n == 1 ==> events + Steps(n) == events + [BootStep]
  {
  }

  lemma {:induction false} BootAdvances(cfg: Config, events: seq<Event>)
    requires ValidConfig(cfg) && Run(cfg, events).Some? && Run(cfg, events).value.phase.Booting?
    ensures var s := Run(cfg, events).value;
      && NextBoot(cfg, s).Some?
      && var p, p' := s.phase, NextBoot(cfg, s).value.phase;
         if p.boot.Resume?
         then p'.Idle? && p'.mem.tip == if p.latest.Some? then p.latest.value else cfg.genesis.block
         else p'.Booting? && p'.latest == p.latest && StagesLeft(p'.boot) + 1 == StagesLeft(p.boot)
  {
    RunKeepsInv(cfg, events);
    BootAdvancesFrom(cfg, Run(cfg, events).value);
  }

  lemma {:induction false} BootAdvancesFrom(cfg: Config, s: Sys)
    requires ValidConfig(cfg) && Inv(cfg, s) && s.phase.Booting?
    ensures NextBoot(cfg, s).Some?
    ensures var p, p' := s.phase, NextBoot(cfg, s).value.phase;
      if p.boot.Resume?
      then p'.Idle? && p'.mem.tip == if p.latest.Some? then p.latest.value else cfg.genesis.block
      else p'.Booting? && p'.latest == p.latest && StagesLeft(p'.boot) + 1 == StagesLeft(p.boot)
  {
    assert BootError(cfg, s).None? by { BootNeverRefused(cfg, s); }
    if s.phase.boot.Resume? && s.phase.latest.Some? {
      FoldShape(cfg, s.phase.latest.value);
    }
  }

  lemma {:induction false} RunBoot(cfg: Config, events: seq<Event>) returns (more: seq<Event>)
    requires Run(cfg, events).Some? && Run(cfg, events).value.phase.Booting?
    ensures more == events + [BootStep]
    ensures Run(cfg, more) == NextBoot(cfg, Run(cfg, events).value)
  {
    more := RunSnoc(cfg, events, BootStep);
  }

  lemma {:induction false} RunSnoc(cfg: Config, events: seq<Event>, e: Event) returns (more: seq<Event>)
    requires Run(cfg, events).Some?
    ensures more == events + [e]
    ensures Run(cfg, more) == Next(cfg, Run(cfg, events).value, e)
  {
    more := events + [e];
    assert more[..|more| - 1] == events;
  }
}
