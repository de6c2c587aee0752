/**
 The ASM worker as a machine over its durable stores and its memory: start-up,
 block submission, one step per store write, and crashes anywhere in between.
 */
module Worker {
  import opened Wrappers
  import opened Sync
  import opened Registry
  import opened AuxData

  datatype Log = StfUpdate(key: PredicateKey) | OtherLog(payload: nat)

  datatype Manifest = Manifest(height: nat, blkid: BlockId, wtxidsRoot: nat, logs: seq<Log>)

  /**
   An anchor state: its block, the spec that produced it, the leaves of its
   history accumulator, and the rest (header verification and sections).
   */
  datatype Anchor = Anchor(block: Commitment, specId: SpecId, acc: seq<Hash>, rest: nat)

  datatype Output = Output(state: Anchor, manifest: Manifest)

  /** What executing a block under a spec yields, as far as the worker can tell. */
  datatype Effects = Effects(wtxidsRoot: nat, logs: seq<Log>, rest: nat, aux: nat)

  /**
   Everything that stays the same across restarts: L1, the specs and the genesis.
   A spec says whether a header stands on its parent's anchor as far as proof of
   work and time go, which manifest hashes a block's transactions ask for, and what
   the block does once they have been verified, which fixes them.
   */
  datatype Config = Config(
    genesis: Anchor,
    genesisPredicate: PredicateKey,
    targets: seq<Target>,
    anchorMatchesL1: bool,
    prevOf: BlockId -> Option<BlockId>,
    heightOf: BlockId -> Option<nat>,
    acceptsHeader: (SpecId, Anchor, BlockId) -> bool,
    requests: (SpecId, Anchor, BlockId) -> seq<ManifestHashRange>,
    execute: (SpecId, Anchor, BlockId) -> Option<Effects>,
    hash: Manifest -> Hash)

  datatype WorkerError =
    | MissingL1Block
    | MissingGenesisState
    | UnsupportedExecutionPredicate
    | UnsupportedExecutionSpec
    | AuxUnresolved
    | AsmError
    | HeightAssertion
    | GenesisSpecMismatch
    | AnchorMismatch
    | GenesisStateMismatch
    | PartialManifestMmr
    | InvalidRecoveryAnchor
    | MissingManifest
    | RecoveryManifestMismatch
    | StoreFailure

  function GenesisHeight(cfg: Config): nat {
    cfg.genesis.block.height
  }

  // ---- The state transition ------------------------------------------------------------

  /** The first update announced in a block's logs. */
  function NextPredicateFromLogs(logs: seq<Log>): Option<PredicateKey> {
    if logs == [] then None
    else if logs[0].StfUpdate? then Some(logs[0].key)
    else NextPredicateFromLogs(logs[1..])
  }

  function Carry(current: PredicateKey, logs: seq<Log>): PredicateKey {
    match NextPredicateFromLogs(logs)
    case Some(key) => key
    case None => current
  }

  datatype Executed = Executed(output: Output, aux: nat)

  /** The header check, made once before requests are resolved and again by the STF. */
  predicate HeaderFollows(cfg: Config, specId: SpecId, pre: Anchor, id: BlockId) {
    cfg.prevOf(id) == Some(pre.block.blkid) && cfg.acceptsHeader(specId, pre, id)
  }

  /** The STF: the header, execution, the manifest and its accumulator leaf. */
  function ComputeTransition(cfg: Config, specId: SpecId, pre: Anchor, id: BlockId): Result<Executed, WorkerError> {
    if !HeaderFollows(cfg, specId, pre, id) then Err(AsmError)
    else match cfg.execute(specId, pre, id)
      case None => Err(AsmError)
      case Some(e) =>
        var block := Commitment(pre.block.height + 1, id);
        var manifest := Manifest(block.height, id, e.wtxidsRoot, e.logs);
        var acc := pre.acc + [cfg.hash(manifest)];
        if |acc| - 1 != block.height then Err(HeightAssertion)
        else Ok(Executed(Output(Anchor(block, specId, acc, e.rest), manifest), e.aux))
  }

  /** The leaves as the aux resolver sees them. */
  function View(cfg: Config, leaves: seq<Hash>): ManifestMmr {
    ManifestMmr(leaves, GenesisHeight(cfg))
  }

  /** What pre-processing collects: the requests within the accumulator's heights. */
  function Collected(cfg: Config, specId: SpecId, pre: Anchor, id: BlockId): seq<ManifestHashRange> {
    var requests := cfg.requests(specId, pre, id);
    Collect(if pre.acc == [] then 0 else |pre.acc| - 1, requests, |requests|)
  }

  /** What the block asks for under the spec that the predicate selects. */
  function Requests(cfg: Config, key: PredicateKey, pre: Anchor, id: BlockId): seq<ManifestHashRange> {
    match Resolve(cfg.targets, key)
    case None => []
    case Some(specId) => Collected(cfg, specId, pre, id)
  }

  /**
   Runs the spec that the parent's predicate selects; unknown keys never fall back.
   The block's requests are resolved from `leaves` as of the parent's leaf count,
   and must verify against the parent's accumulator.
   */
  ghost function Transition(cfg: Config, leaves: seq<Hash>, key: PredicateKey, pre: Anchor, id: BlockId)
      : Result<Executed, WorkerError>
  {
    match Resolve(cfg.targets, key)
    case None => Err(UnsupportedExecutionPredicate)
    case Some(specId) =>
      if !HeaderFollows(cfg, specId, pre, id) then Err(AsmError)
      else if !Found(View(cfg, leaves), |pre.acc|, Collected(cfg, specId, pre, id)) then Err(AuxUnresolved)
      else if !Serves(View(cfg, leaves), pre.acc, Collected(cfg, specId, pre, id)) then Err(AsmError)
      else ComputeTransition(cfg, specId, pre, id)
  }

  // ---- What each block should hold ---------------------------------------------------------

  function ParentOf(cfg: Config, c: Commitment): Result<Commitment, WorkerError> {
    if c.height == 0 then Err(MissingL1Block)
    else match cfg.prevOf(c.blkid)
      case None => Err(MissingL1Block)
      case Some(prev) => Ok(Commitment(c.height - 1, prev))
  }

  datatype Record = Record(manifest: Manifest, aux: nat)

  /** A block's anchor, the predicate for its child, and its record unless it is genesis. */
  datatype Folded = Folded(anchor: Anchor, next: PredicateKey, record: Option<Record>)

  /**
   The STF folded from genesis along the parent links of `c`, upgrades included.
   No store takes part: requests are resolved from the accumulator's own leaves.
   */
  ghost function Fold(cfg: Config, c: Commitment): Option<Folded>
    decreases c.height
  {
    if c == cfg.genesis.block then Some(Folded(cfg.genesis, cfg.genesisPredicate, None))
    else if c.height <= GenesisHeight(cfg) then None
    else match ParentOf(cfg, c)
      case Err(_) => None
      case Ok(parent) =>
        match Fold(cfg, parent)
        case None => None
        case Some(f) => FoldStep(cfg, f, c)
  }

  ghost function FoldStep(cfg: Config, f: Folded, c: Commitment): Option<Folded> {
    match Transition(cfg, f.anchor.acc, f.next, f.anchor, c.blkid)
    case Err(_) => None
    case Ok(x) =>
      var manifest := x.output.manifest;
      Some(Folded(x.output.state, Carry(f.next, manifest.logs), Some(Record(manifest, x.aux))))
  }

  // ---- Stores --------------------------------------------------------------------------------

  /** The durable stores. `mmr` is the leaf sequence, its first leaves seeded from genesis. */
  datatype Store = Store(
    anchors: map<Commitment, Anchor>,
    manifests: map<Commitment, Manifest>,
    aux: map<Commitment, nat>,
    mmr: seq<Hash>)

  /** Writes the leaf of a height: an append at the end or an overwrite above genesis. */
  function PutLeaf(cfg: Config, mmr: seq<Hash>, height: nat, leaf: Hash): Option<seq<Hash>> {
    if height <= GenesisHeight(cfg) || height > |mmr| then None
    else if height == |mmr| then Some(mmr + [leaf])
    else Some(mmr[height := leaf])
  }

  /** The stored anchor with the greatest key: height first, then block id. */
  ghost predicate IsLatest(anchors: map<Commitment, Anchor>, latest: Option<Commitment>) {
    match latest
    case None => anchors == map[]
    case Some(c) => c in anchors && forall k :: k in anchors ==>
      k.height < c.height || (k.height == c.height && k.blkid <= c.blkid)
  }

  /** Reads the predicate for the next block off one anchor and its own manifest. */
  function Recover(cfg: Config, manifests: map<Commitment, Manifest>, anchor: Anchor)
      : Result<PredicateKey, WorkerError>
  {
    var block := anchor.block;
    if block == cfg.genesis.block then Ok(cfg.genesisPredicate)
    else if block.height <= GenesisHeight(cfg) then Err(InvalidRecoveryAnchor)
    else if block !in manifests then Err(MissingManifest)
    else RecoverPredicate(cfg, anchor, manifests[block])
  }

  function RecoverPredicate(cfg: Config, anchor: Anchor, manifest: Manifest): Result<PredicateKey, WorkerError> {
    if manifest.height != anchor.block.height || manifest.blkid != anchor.block.blkid then Err(RecoveryManifestMismatch)
    else match NextPredicateFromLogs(manifest.logs)
      case Some(key) => Ok(key)
      case None =>
        match PredicateFor(cfg.targets, anchor.specId)
        case Some(key) => Ok(key)
        case None => Err(UnsupportedExecutionSpec)
  }

  /** The sync plan for a target, over the stored anchors. */
  function Plan(cfg: Config, anchors: map<Commitment, Anchor>, target: Commitment)
      : Result<SyncPlan<Anchor>, SyncError<WorkerError>>
  {
    Walk(target, target, GenesisHeight(cfg), BaseAt(anchors), Links(cfg))
  }

  function BaseAt(anchors: map<Commitment, Anchor>): Commitment -> Result<Option<Anchor>, WorkerError> {
    c => Ok(if c in anchors then Some(anchors[c]) else None)
  }

  function Links(cfg: Config): (f: Commitment -> Result<Commitment, WorkerError>)
    ensures Descends(f)
  {
    c => ParentOf(cfg, c)
  }

  function Reversed(s: seq<Commitment>): (r: seq<Commitment>)
    ensures |r| == |s|
    ensures forall i :: 0 <= i < |s| ==> r[i] == s[|s| - 1 - i]
  {
    if s == [] then [] else Reversed(s[1..]) + [s[0]]
  }

  // ---- The machine -----------------------------------------------------------------------------

  datatype Mem = Mem(tip: Commitment, anchor: Anchor, next: PredicateKey)

  datatype BootStage = CheckGenesis | SeedMmr | StoreGenesis | Resume

  datatype ApplyStage = NothingWritten | ManifestWritten | LeafWritten | AuxWritten | AnchorWritten

  datatype Phase =
    | Down
    | Booting(latest: Option<Commitment>, boot: BootStage)
    | Idle(mem: Mem)
    | Syncing(mem: Mem, todo: seq<Commitment>)
    | Applying(mem: Mem, todo: seq<Commitment>, run: Executed, stage: ApplyStage)

  /**
   `emitted` is every commitment ever sent to subscribers; `lastLeaf` is the
   block whose MMR leaf was written last, genesis before any write.
   */
  datatype Sys = Sys(store: Store, phase: Phase, emitted: seq<Commitment>, lastLeaf: Commitment)

  datatype Event =
    | Crash
    | Boot(latest: Option<Commitment>)
    | BootStep
    | Submit(target: BlockId)
    | Execute
    | Write
    | Accept

  function Initial(cfg: Config): Sys {
    Sys(Store(map[], map[], map[], []), Down, [], cfg.genesis.block)
  }

  /** The state after an event, or none when the code does not take that step. */
  ghost function Next(cfg: Config, s: Sys, e: Event): Option<Sys> {
    match e
    case Crash => Some(s.(phase := Down))
    case Boot(latest) =>
      if s.phase.Down? && IsLatest(s.store.anchors, latest) && ConfigError(cfg).None?
      then Some(s.(phase := Booting(latest, CheckGenesis))) else None
    case BootStep => if s.phase.Booting? then NextBoot(cfg, s) else None
    case Submit(target) =>
      if s.phase.Idle? then
        match PlanFor(cfg, s.store, s.phase.mem, target)
        case Err(_) => None
        case Ok(None) => Some(s)
        case Ok(Some(p)) => Some(s.(phase := p))
      else None
    case Execute =>
      if s.phase.Syncing? && s.phase.todo != [] then
        match Transition(cfg, s.store.mmr, s.phase.mem.next, s.phase.mem.anchor, s.phase.todo[0].blkid)
        case Err(_) => None
        case Ok(run) => Some(s.(phase := Applying(s.phase.mem, s.phase.todo, run, NothingWritten)))
      else None
    case Write => if s.phase.Applying? && s.phase.todo != [] then NextWrite(cfg, s) else None
    case Accept =>
      if s.phase.Applying? && s.phase.todo != [] && s.phase.stage.AnchorWritten? then Some(AfterAccept(s)) else None
  }

  /** Memory moves to the block just anchored, and subscribers are told. */
  function AfterAccept(s: Sys): Sys
    requires s.phase.Applying? && s.phase.todo != []
  {
    var block, output := s.phase.todo[0], s.phase.run.output;
    var mem := Mem(block, output.state, Carry(s.phase.mem.next, output.manifest.logs));
    var todo := s.phase.todo[1..];
    s.(phase := AfterBlock(mem, todo), emitted := s.emitted + [block])
  }

  function AfterBlock(mem: Mem, todo: seq<Commitment>): Phase {
    if todo == [] then Idle(mem) else Syncing(mem, todo)
  }

  /** The checks `new` makes before it reads the stores. */
  function ConfigError(cfg: Config): Option<WorkerError> {
    match Resolve(cfg.targets, cfg.genesisPredicate)
    case None => Some(UnsupportedExecutionPredicate)
    case Some(specId) =>
      if specId != cfg.genesis.specId then Some(GenesisSpecMismatch)
      else if !cfg.anchorMatchesL1 then Some(AnchorMismatch)
      else None
  }

  /** What a boot stage finds wrong with the stores. */
  function BootError(cfg: Config, s: Sys): Option<WorkerError>
    requires s.phase.Booting?
  {
    var g := cfg.genesis.block;
    match s.phase.boot
    case CheckGenesis =>
      if g in s.store.anchors && s.store.anchors[g] != cfg.genesis then Some(GenesisStateMismatch) else None
    case SeedMmr =>
      if 0 < |s.store.mmr| < |cfg.genesis.acc| then Some(PartialManifestMmr) else None
    case StoreGenesis => None
    case Resume =>
      match Recover(cfg, s.store.manifests, ResumeAnchor(cfg, s))
      case Err(e) => Some(e)
      case Ok(_) => None
  }

  function ResumeAnchor(cfg: Config, s: Sys): Anchor
    requires s.phase.Booting?
  {
    match s.phase.latest
    case Some(c) => if c in s.store.anchors then s.store.anchors[c] else cfg.genesis
    case None => cfg.genesis
  }

  ghost function NextBoot(cfg: Config, s: Sys): Option<Sys>
    requires s.phase.Booting?
  {
    if BootError(cfg, s).Some? then None
    else
      var latest, g := s.phase.latest, cfg.genesis.block;
      match s.phase.boot
      case CheckGenesis =>
        var anchors :=
          if g !in s.store.anchors && latest.Some? then s.store.anchors[g := cfg.genesis] else s.store.anchors;
        Some(s.(store := s.store.(anchors := anchors), phase := Booting(latest, SeedMmr)))
      case SeedMmr =>
        var mmr := if s.store.mmr == [] then cfg.genesis.acc else s.store.mmr;
        Some(s.(store := s.store.(mmr := mmr), phase := Booting(latest, StoreGenesis)))
      case StoreGenesis =>
        var anchors := if latest.None? then s.store.anchors[g := cfg.genesis] else s.store.anchors;
        Some(s.(store := s.store.(anchors := anchors), phase := Booting(latest, Resume)))
      case Resume =>
        var anchor := ResumeAnchor(cfg, s);
        Some(s.(phase := Idle(Mem(anchor.block, anchor, Recover(cfg, s.store.manifests, anchor).value))))
  }

  /** The phase a submitted block leads to, or none when there is nothing to do. */
  function PlanFor(cfg: Config, store: Store, mem: Mem, target: BlockId): Result<Option<Phase>, WorkerError> {
    match cfg.heightOf(target)
    case None => Err(MissingL1Block)
    case Some(height) =>
      if height < GenesisHeight(cfg) then Ok(None)
      else match Plan(cfg, store.anchors, Commitment(height, target))
        case Err(ReachedFloor(_, _)) => Err(MissingGenesisState)
        case Err(Provider(e)) => Err(e)
        case Ok(plan) =>
          if plan.pending == [] then Ok(None)
          else match RestoredMemory(cfg, store, mem, plan.baseState, plan.baseBlock)
            case Err(e) => Err(e)
            case Ok(restored) => Ok(Some(Syncing(restored, Reversed(plan.pending))))
  }

  /** Recovers the predicate only when the base is not the block already in memory. */
  function RestoredMemory(cfg: Config, store: Store, mem: Mem, anchor: Anchor, block: Commitment)
      : Result<Mem, WorkerError>
  {
    if block == mem.tip then Ok(Mem(block, anchor, mem.next))
    else match Recover(cfg, store.manifests, anchor)
      case Err(e) => Err(e)
      case Ok(key) => Ok(Mem(block, anchor, key))
  }

  /** The next write of a block's record: manifest, leaf, aux data, and the anchor last. */
  function NextWrite(cfg: Config, s: Sys): Option<Sys>
    requires s.phase.Applying? && s.phase.todo != []
  {
    var p, store := s.phase, s.store;
    var m := p.run.output.manifest;
    match p.stage
    case NothingWritten =>
      Some(s.(store := store.(manifests := store.manifests[Commitment(m.height, m.blkid) := m]),
              phase := p.(stage := ManifestWritten)))
    case ManifestWritten =>
      (match PutLeaf(cfg, store.mmr, m.height, cfg.hash(m))
       case None => None
       case Some(mmr) => Some(s.(store := store.(mmr := mmr), phase := p.(stage := LeafWritten),
                                 lastLeaf := Commitment(m.height, m.blkid))))
    case LeafWritten =>
      Some(s.(store := store.(aux := store.aux[p.todo[0] := p.run.aux]), phase := p.(stage := AuxWritten)))
    case AuxWritten =>
      var state := p.run.output.state;
      Some(s.(store := store.(anchors := store.anchors[state.block := state]), phase := p.(stage := AnchorWritten)))
    case AnchorWritten => None
  }

  /** The state a run of events leads to, if every one of them is a step. */
  ghost function Run(cfg: Config, events: seq<Event>): Option<Sys> {
    if events == [] then Some(Initial(cfg))
    else match Run(cfg, events[..|events| - 1])
      case None => None
      case Some(s) => Next(cfg, s, events[|events| - 1])
  }

  /** The contract of a configuration that started once. */
  ghost predicate ValidConfig(cfg: Config) {
    && OneToOne(cfg.targets)
    && |cfg.genesis.acc| == GenesisHeight(cfg) + 1
    && ConfigError(cfg).None?
  }
}
