/**
 The worker as it is written: a context whose stores are updated one write at a
 time, any of which can fail or be the last one before a crash, and a service
 state whose methods drive it. Every write is recorded as a step of the machine
 in `Worker`, so whatever holds of all its runs holds of this code.
 */
module WorkerService {
  import opened Wrappers
  import opened Sync
  import opened Registry
  import opened AuxData
  import opened Worker
  import opened WorkerSafety
  import opened WorkerMmr
  import opened WorkerProgress
  import opened WorkerAgreement
  import opened WorkerReach
  import opened WorkerHistory

  function Elements(s: seq<Commitment>): set<Commitment> {
    set c | c in s
  }

  lemma {:induction false} ElementsGrow(s: seq<Commitment>, i: nat)
    requires i < |s|
    ensures s[..i + 1] == s[..i] + [s[i]]
    ensures Elements(s[..i + 1]) == Elements(s[..i]) + {s[i]}
  {
  }

  /** The stores, and how many more writes will succeed before one does not. */
  class WorkerContext {
    const cfg: Config
    var anchors: map<Commitment, Anchor>
    var manifests: map<Commitment, Manifest>
    var aux: map<Commitment, nat>
    var mmr: seq<Hash>
    var emitted: seq<Commitment>
    var fuel: nat
    ghost var events: seq<Event>
    ghost var sys: Sys

    ghost predicate Valid()
      reads this
    {
      && Run(cfg, events) == Some(sys)
      && sys.store == Store(anchors, manifests, aux, mmr)
      && sys.emitted == emitted
    }

    constructor (cfg: Config, fuel: nat)
      ensures Valid() && this.cfg == cfg && sys == Initial(cfg)
    {
      this.cfg := cfg;
      anchors, manifests, aux, mmr, emitted := map[], map[], map[], [], [];
      this.fuel := fuel;
      events, sys := [], Initial(cfg);
    }

    /** Records a step whose effect on the stores has just been made. */
    ghost method Step(e: Event)
      requires Run(cfg, events) == Some(sys) && Next(cfg, sys, e).Some?
      requires Next(cfg, sys, e).value.store == Store(anchors, manifests, aux, mmr)
      requires Next(cfg, sys, e).value.emitted == emitted
      modifies this`events, this`sys
      ensures Valid() && Some(sys) == Next(cfg, old(sys), e) && events == old(events) + [e]
    {
      events := RunSnoc(cfg, events, e);
      sys := Next(cfg, sys, e).value;
    }

    /** A write that does not happen ends the process. */
    ghost method Die()
      requires Valid()
      modifies this`events, this`sys
      ensures Valid() && sys == old(sys).(phase := Down) && events == old(events) + [Crash]
    {
      Step(Crash);
    }

    /** Spends one write; false when there is none left. */
    method Spend() returns (ok: bool)
      requires Valid()
      modifies this`fuel, this`events, this`sys
      ensures Valid()
      ensures ok ==> sys == old(sys)
      ensures !ok ==> fuel == 0 && sys == old(sys).(phase := Down)
    {
      ok := fuel > 0;
      if ok {
        fuel := fuel - 1;
      } else {
        Die();
      }
    }

    /** One of the four ordered writes of the block being applied. */
    ghost predicate Writing(stage: ApplyStage)
      reads this
    {
      sys.phase.Applying? && sys.phase.todo != [] && sys.phase.stage == stage
    }

    method PutManifest(manifest: Manifest) returns (ok: bool)
      requires Valid() && Writing(NothingWritten) && manifest == sys.phase.run.output.manifest
      modifies this`manifests, this`fuel, this`events, this`sys
      ensures Valid()
      ensures sys.phase == if ok then old(sys.phase).(stage := ManifestWritten) else Down
      ensures !ok ==> fuel == 0
      ensures ok ==> manifests == old(manifests)[Commitment(manifest.height, manifest.blkid) := manifest]
      ensures !ok ==> manifests == old(manifests)
    {
      ok := Spend();
      if ok {
        manifests := manifests[Commitment(manifest.height, manifest.blkid) := manifest];
        Step(Write);
      }
    }

    /** Appends at the end or overwrites above genesis; anything else is refused, and changes nothing. */
    method PutLeafAt(height: nat, hash: Hash) returns (ok: bool)
      modifies this`mmr
      ensures ok <==> GenesisHeight(cfg) < height <= |old(mmr)|
      ensures ok ==> |mmr| == (if height == |old(mmr)| then |old(mmr)| + 1 else |old(mmr)|) && mmr[height] == hash
      ensures ok ==> forall i :: 0 <= i < |old(mmr)| && i != height ==> mmr[i] == old(mmr)[i]
      ensures !ok ==> mmr == old(mmr)
    {
      if height <= GenesisHeight(cfg) || height > |mmr| {
        return false;
      }
      mmr := if height == |mmr| then mmr + [hash] else mmr[height := hash];
      return true;
    }

    /** The leaf write of the block being applied. */
    method PutManifestHash(height: nat, hash: Hash) returns (ok: bool)
      requires Valid() && Writing(ManifestWritten)
      requires height == sys.phase.run.output.manifest.height && hash == cfg.hash(sys.phase.run.output.manifest)
      modifies this`mmr, this`fuel, this`events, this`sys
      ensures Valid()
      ensures sys.phase == if ok then old(sys.phase).(stage := LeafWritten) else Down
      ensures !ok ==> fuel == 0 || PutLeaf(cfg, mmr, height, hash).None?
      ensures if ok then PutLeaf(cfg, old(mmr), height, hash) == Some(mmr) else mmr == old(mmr)
    {
      ok := Spend();
      if ok {
        ghost var before := mmr;
        ok := PutLeafAt(height, hash);
        if ok {
          assert mmr == if height == |before| then before + [hash] else before[height := hash];
          Step(Write);
        } else {
          Die();
        }
      }
    }

    /** The manifest first, its MMR leaf second. */
    method RecordManifest(manifest: Manifest) returns (ok: bool)
      requires ValidConfig(cfg) && Valid() && Writing(NothingWritten) && manifest == sys.phase.run.output.manifest
      modifies this`manifests, this`mmr, this`fuel, this`events, this`sys
      ensures Valid()
      ensures sys.phase == if ok then old(sys.phase).(stage := LeafWritten) else Down
      ensures !ok ==> fuel == 0
      ensures ok ==> PutLeaf(cfg, old(mmr), manifest.height, cfg.hash(manifest)) == Some(mmr)
    {
      ok := PutManifest(manifest);
      if ok {
        RunKeepsInv(cfg, events);
        LeafNeverRejected(cfg, sys);
        ok := PutManifestHash(manifest.height, cfg.hash(manifest));
      }
    }

    method StoreAuxData(block: Commitment, data: nat) returns (ok: bool)
      requires Valid() && Writing(LeafWritten) && block == sys.phase.todo[0] && data == sys.phase.run.aux
      modifies this`aux, this`fuel, this`events, this`sys
      ensures Valid()
      ensures sys.phase == if ok then old(sys.phase).(stage := AuxWritten) else Down
      ensures !ok ==> fuel == 0
      ensures aux == if ok then old(aux)[block := data] else old(aux)
    {
      ok := Spend();
      if ok {
        aux := aux[block := data];
        Step(Write);
      }
    }

    method StoreAnchorState(state: Anchor) returns (ok: bool)
      requires Valid() && Writing(AuxWritten) && state == sys.phase.run.output.state
      modifies this`anchors, this`fuel, this`events, this`sys
      ensures Valid()
      ensures sys.phase == if ok then old(sys.phase).(stage := AnchorWritten) else Down
      ensures !ok ==> fuel == 0
      ensures anchors == if ok then old(anchors)[state.block := state] else old(anchors)
    {
      ok := Spend();
      if ok {
        anchors := anchors[state.block := state];
        Step(Write);
      }
    }

    /** The whole record of a block: manifest and leaf, aux data, and the anchor as the commit point. */
    method Persist(block: Commitment, output: Output, data: nat) returns (ok: bool)
      requires ValidConfig(cfg) && Valid() && Writing(NothingWritten) && block == sys.phase.todo[0]
      requires sys.phase.run == Executed(output, data)
      modifies this`anchors, this`manifests, this`aux, this`mmr, this`fuel, this`events, this`sys
      ensures Valid()
      ensures sys.phase == if ok then old(sys.phase).(stage := AnchorWritten) else Down
      ensures !ok ==> fuel == 0
      ensures anchors == if ok then old(anchors)[output.state.block := output.state] else old(anchors)
      ensures ok ==> PutLeaf(cfg, old(mmr), output.manifest.height, cfg.hash(output.manifest)) == Some(mmr)
    {
      ok := RecordManifest(output.manifest);
      if !ok {
        return;
      }
      ok := StoreAuxData(block, data);
      if !ok {
        return;
      }
      ok := StoreAnchorState(output.state);
    }

    /** Tells subscribers of a block whose record is complete. */
    method Emit(block: Commitment)
      requires Valid() && Writing(AnchorWritten) && block == sys.phase.todo[0]
      modifies this`emitted, this`events, this`sys
      ensures Valid() && emitted == old(emitted) + [block]
      ensures sys == AfterAccept(old(sys))
    {
      emitted := emitted + [block];
      Step(Accept);
    }

    /** The anchor under the greatest key. */
    method GetLatestAnchorState() returns (latest: Option<Commitment>)
      ensures IsLatest(anchors, latest)
    {
      latest := None;
      var left := anchors.Keys;
      while left != {}
        invariant left <= anchors.Keys
        invariant latest.None? ==> left == anchors.Keys
        invariant latest.Some? ==> latest.value in anchors && forall k :: k in anchors && k !in left ==>
          k.height < latest.value.height || (k.height == latest.value.height && k.blkid <= latest.value.blkid)
        decreases left
      {
        var c :| c in left;
        left := left - {c};
        if latest.None? || c.height > latest.value.height ||
           (c.height == latest.value.height && c.blkid > latest.value.blkid) {
          latest := Some(c);
        }
      }
      if latest.None? {
        assert anchors.Keys == {};
      }
    }
  }

  /**
   A block was refused although it may fold: the stored leaves do not serve what it
   asks for, which takes a sync that started off the last written branch.
   */
  ghost predicate StoppedByLeaves(context: WorkerContext, error: WorkerError, c: Commitment)
    reads context
  {
    error == AsmError && Unserved(context.cfg, context.mmr, c) && !SingleBranchRun(context.cfg, context.events)
  }

  /** The service state: the context and what is held in memory. */
  class AsmWorkerServiceState {
    const context: WorkerContext
    var blkid: Commitment
    var anchor: Anchor
    var nextPredicate: PredicateKey

    ghost function Memory(): Mem
      reads this
    {
      Mem(blkid, anchor, nextPredicate)
    }

    ghost predicate Valid()
      reads this, context
    {
      ValidConfig(context.cfg) && context.Valid() && context.sys.phase == Idle(Memory())
    }

    /** Wraps a context that has just finished its start-up checks. */
    constructor Resumed(context: WorkerContext, anchor: Anchor, key: PredicateKey)
      requires ValidConfig(context.cfg) && context.Valid()
      requires context.sys.phase == Idle(Mem(anchor.block, anchor, key))
      ensures this.context == context && Valid()
    {
      this.context := context;
      this.blkid := anchor.block;
      this.anchor := anchor;
      this.nextPredicate := key;
    }

    /** Recovers the predicate unless the base is the block already in memory. */
    method RestoreAnchor(anchor: Anchor, block: Commitment) returns (r: Result<(), WorkerError>)
      modifies this
      ensures
        match RestoredMemory(context.cfg, Store(context.anchors, context.manifests, context.aux, context.mmr),
                            old(Memory()), anchor, block)
        case Ok(mem) => r == Ok(()) && Memory() == mem
        case Err(e) => r == Err(e) && Memory() == old(Memory())
    {
      if block != blkid {
        var key := Recover(context.cfg, context.manifests, anchor);
        if key.Err? {
          return Err(key.error);
        }
        nextPredicate := key.value;
      }
      this.anchor, blkid := anchor, block;
      return Ok(());
    }

    method AcceptOutput(output: Output, block: Commitment)
      modifies this
      ensures Memory() == Mem(block, output.state, Carry(old(nextPredicate), output.manifest.logs))
      ensures Succeeds(old(nextPredicate), output.manifest.logs, nextPredicate)
    {
      CarrySucceeds(nextPredicate, output.manifest.logs);
      var key := NextPredicateFromLogs(output.manifest.logs);
      if key.Some? {
        nextPredicate := key.value;
      }
      anchor, blkid := output.state, block;
    }

    /**
     Runs the spec selected by the predicate: the block's requests are collected,
     resolved from the MMR and verified against the accumulator, then it is executed.
     */
    method ExecuteBlock(id: BlockId) returns (run: Result<Executed, WorkerError>)
      ensures run == Transition(context.cfg, context.mmr, nextPredicate, anchor, id)
    {
      var cfg := context.cfg;
      var specId := Resolve(cfg.targets, nextPredicate);
      if specId.None? {
        return Err(UnsupportedExecutionPredicate);
      }
      if !HeaderFollows(cfg, specId.value, anchor, id) {
        return Err(AsmError);
      }
      var bound := if anchor.acc == [] then 0 else |anchor.acc| - 1;
      var ranges := CollectRequests(bound, cfg.requests(specId.value, anchor, id));
      var index := ServeRequests(View(cfg, context.mmr), anchor.acc, ranges);
      if index.Err? {
        return Err(if index.error.InvalidMmrProof? then AsmError else AuxUnresolved);
      }
      return ComputeTransition(cfg, specId.value, anchor, id);
    }

    /** The block did not execute: the worker goes down. */
    ghost method Refuse(block: Commitment, error: WorkerError)
      requires ValidConfig(context.cfg) && context.Valid()
      requires context.sys.phase.Syncing? && context.sys.phase.mem == Memory()
      requires context.sys.phase.todo != [] && context.sys.phase.todo[0] == block
      requires Transition(context.cfg, context.mmr, nextPredicate, anchor, block.blkid) == Err(error)
      modifies context`events, context`sys
      ensures context.Valid() && context.sys.phase.Down?
      ensures error in {UnsupportedExecutionPredicate, AuxUnresolved, AsmError}
      ensures Fold(context.cfg, block).None? || StoppedByLeaves(context, error, block)
    {
      TransitionErrors(context.cfg, context.events, block);
      SingleBranchSnoc(context.cfg, context.events, Crash);
      context.Die();
    }

    /** Executes one block and writes its record, the anchor last; subscribers hear of it after that. */
    method ApplyBlock(block: Commitment) returns (r: Result<(), WorkerError>)
      requires ValidConfig(context.cfg) && context.Valid()
      requires context.sys.phase.Syncing? && context.sys.phase.mem == Memory()
      requires context.sys.phase.todo != [] && context.sys.phase.todo[0] == block
      modifies this, context
      ensures context.Valid()
      ensures r.Ok? ==>
        && blkid == block
        && context.sys.phase == AfterBlock(Memory(), old(context.sys.phase.todo)[1..])
        && context.anchors == old(context.anchors)[block := anchor]
        && context.anchors.Keys == old(context.anchors.Keys) + {block}
        && context.emitted == old(context.emitted) + [block]
        && LeafPut(context.cfg, block, old(context.mmr), context.mmr)
      ensures r.Err? ==>
        && context.sys.phase.Down? && context.anchors == old(context.anchors)
        && context.emitted == old(context.emitted)
        && (r.error != StoreFailure ==> context.mmr == old(context.mmr))
        && (|| (r.error == StoreFailure && context.fuel == 0)
            || (r.error in {UnsupportedExecutionPredicate, AuxUnresolved, AsmError} && Fold(context.cfg, block).None?)
            || StoppedByLeaves(context, r.error, block))
    {
      var run := ExecuteBlock(block.blkid);
      if run.Err? {
        Refuse(block, run.error);
        return Err(run.error);
      }
      var output := run.value.output;
      context.Step(Execute);
      BlockNamesItself(context.cfg, context.events, block);
      var ok := context.Persist(block, output, run.value.aux);
      if !ok {
        return Err(StoreFailure);
      }
      AcceptOutput(output, block);
      context.Emit(block);
      return Ok(());
    }

    /** Since then the blocks in `done` were anchored and announced, in order, and no others. */
    ghost predicate Grown(emitted: seq<Commitment>, anchored: set<Commitment>, done: seq<Commitment>)
      reads context
    {
      context.emitted == emitted + done && context.anchors.Keys == anchored + Elements(done)
    }

    /** No retry could help: the block was out of reach, for not folding or for leaves that a block on its path met. */
    ghost predicate Final(events: seq<Event>, anchors: map<Commitment, Anchor>, targetId: BlockId, error: WorkerError)
      requires context.cfg.heightOf(targetId).Some?
      reads context
    {
      var target := Commitment(context.cfg.heightOf(targetId).value, targetId);
      && OutOfReach(context.cfg, events, target)
      && (|| Fold(context.cfg, target).None?
          || exists c :: c in PathTo(context.cfg, anchors, targetId) && StoppedByLeaves(context, error, c))
    }

    /**
     Syncs to a submitted block: plans back to the nearest stored ancestor, then
     applies the path above it oldest first. Nothing happens for a block below
     genesis or already anchored; any failure takes the worker down with a prefix of
     the path done. Unless L1 does not know the block or a write fails, a failure is
     final: the block was not clear before the call.
     */
    method SyncToBlock(targetId: BlockId) returns (r: Result<seq<Commitment>, WorkerError>, ghost done: seq<Commitment>)
      requires Valid()
      modifies this, context
      ensures context.Valid() && Grown(old(context.emitted), old(context.anchors.Keys), done)
      ensures done <= PathTo(context.cfg, old(context.anchors), targetId)
      ensures r.Ok? ==> r.value == done == PathTo(context.cfg, old(context.anchors), targetId)
      ensures r.Ok? ==>
        && Valid() && context.cfg.heightOf(targetId).Some?
        && var target := Commitment(context.cfg.heightOf(targetId).value, targetId);
           && (done == [] <==> target.height < GenesisHeight(context.cfg) || target in old(context.anchors))
           && (done == [] ==> Memory() == old(Memory()) && context.sys == old(context.sys))
           && (done != [] ==> blkid == target)
      ensures context.cfg.heightOf(targetId).None? ==> r == Err(MissingL1Block)
      ensures r.Err? ==>
        && context.sys.phase.Down?
        && (|| context.cfg.heightOf(targetId).None?
            || (r.error == StoreFailure && context.fuel == 0)
            || Final(old(context.events), old(context.anchors), targetId, r.error))
    {
      var cfg := context.cfg;
      var height := cfg.heightOf(targetId);
      done := [];
      if height.None? {
        context.Die();
        return Err(MissingL1Block), [];
      }
      if height.value < GenesisHeight(cfg) {
        return Ok([]), [];
      }
      var target := Commitment(height.value, targetId);
      NotClearIsFinal(cfg, context.events, target);
      r := BeginSync(target);
      if r.Err? || r.value == [] {
        return;
      }
      var applied;
      applied, done := ApplyAll(r.value);
      if applied.Err? {
        r := Err(applied.error);
      }
    }

    /** Plans back to the nearest stored ancestor and restores it; the path above it is then to be applied. */
    method BeginSync(target: Commitment) returns (r: Result<seq<Commitment>, WorkerError>)
      requires Valid()
      requires context.cfg.heightOf(target.blkid) == Some(target.height) && target.height >= GenesisHeight(context.cfg)
      modifies this, context`events, context`sys
      ensures context.Valid()
      ensures r.Err? ==> context.sys.phase.Down? && Fold(context.cfg, target).None?
      ensures r.Ok? && r.value == [] ==>
        target in context.anchors && Memory() == old(Memory()) && context.sys == old(context.sys)
      ensures r.Ok? && r.value != [] ==>
        && target !in context.anchors && r.value[|r.value| - 1] == target
        && context.sys.phase == Syncing(Memory(), r.value)
        && Plan(context.cfg, context.anchors, target).Ok?
        && r.value == Reversed(Plan(context.cfg, context.anchors, target).value.pending)
        && blkid == Plan(context.cfg, context.anchors, target).value.baseBlock
    {
      var cfg := context.cfg;
      PlanKnown(cfg, context.events, target);
      var plan := PlanSync(target, GenesisHeight(cfg), BaseAt(context.anchors), Links(cfg));
      assert plan == Plan(cfg, context.anchors, target);
      if plan.Err? {
        context.Die();
        return Err(if plan.error.ReachedFloor? then MissingGenesisState else plan.error.error);
      }
      PlanIsPath(cfg, context.anchors, target);
      if plan.value.pending == [] {
        return Ok([]);
      }
      SubmitPlans(cfg, context.sys, target);
      var restored := RestoreAnchor(plan.value.baseState, plan.value.baseBlock);
      if restored.Err? {
        context.Die();
        return Err(restored.error);
      }
      context.Step(Submit(target.blkid));
      return Ok(Reversed(plan.value.pending));
    }

    /**
     The first `i` of the planned blocks are anchored and announced, the rest are
     still to do; if the leaves were right for all of them, they are for the rest.
     */
    ghost predicate AppliedUpTo(processed: seq<Commitment>, i: nat, emitted: seq<Commitment>,
        anchored: set<Commitment>, right: bool)
      requires i <= |processed|
      reads this, context
    {
      && context.Valid()
      && context.sys.phase == AfterBlock(Memory(), processed[i..])
      && (i > 0 ==> blkid == processed[i - 1])
      && Grown(emitted, anchored, processed[..i])
      && (right ==> PathRight(context.cfg, context.mmr, blkid.height, processed[i..]))
    }

    /** Why the pass stopped: for want of a write, or at a block that does not fold or is not served. */
    ghost predicate Stopped(processed: seq<Commitment>, error: WorkerError, right: bool)
      requires processed != []
      reads context
    {
      && context.sys.phase.Down?
      && (|| (error == StoreFailure && context.fuel == 0)
          || Fold(context.cfg, Last(processed)).None?
          || (!right && exists c :: c in processed && StoppedByLeaves(context, error, c)))
    }

    /** The forward pass: the planned blocks, oldest first. */
    method ApplyAll(processed: seq<Commitment>) returns (r: Result<(), WorkerError>, ghost done: seq<Commitment>)
      requires ValidConfig(context.cfg) && context.Valid()
      requires processed != [] && context.sys.phase == Syncing(Memory(), processed)
      modifies this, context
      ensures context.Valid() && Grown(old(context.emitted), old(context.anchors.Keys), done) && done <= processed
      ensures r.Err? ==>
        Stopped(processed, r.error, old(PathRight(context.cfg, context.mmr, blkid.height, processed)))
      ensures r.Ok? ==> done == processed && context.sys.phase == Idle(Memory()) && blkid == Last(processed)
    {
      ghost var right := PathRight(context.cfg, context.mmr, blkid.height, processed);
      for i := 0 to |processed|
        invariant AppliedUpTo(processed, i, old(context.emitted), old(context.anchors.Keys), right)
      {
        r := ApplyNth(processed, i, old(context.emitted), old(context.anchors.Keys), right);
        if r.Err? {
          return r, processed[..i];
        }
      }
      assert processed[..|processed|] == processed;
      return Ok(()), processed;
    }

    method ApplyNth(processed: seq<Commitment>, i: nat, ghost emitted: seq<Commitment>,
        ghost anchored: set<Commitment>, ghost right: bool) returns (r: Result<(), WorkerError>)
      requires ValidConfig(context.cfg) && i < |processed| && AppliedUpTo(processed, i, emitted, anchored, right)
      modifies this, context
      ensures context.Valid()
      ensures r.Err? ==> Stopped(processed, r.error, right) && Grown(emitted, anchored, processed[..i])
      ensures r.Ok? ==> AppliedUpTo(processed, i + 1, emitted, anchored, right)
    {
      PathBroken(context.cfg, context.events, Memory(), processed, i);
      assert processed[i..][1..] == processed[i + 1..];
      ElementsGrow(processed, i);
      ghost var events := context.events;
      if right {
        RightIsServed(context.cfg, events, processed[i..]);
      }
      r := ApplyBlock(processed[i]);
      if right && r.Ok? {
        RightForRest(context.cfg, events, processed[i..], context.mmr);
      }
    }
  }

  /** `mmr'` is `mmr` with the leaf of `c` put at the height of `c`. */
  ghost predicate LeafPut(cfg: Config, c: Commitment, mmr: seq<Hash>, mmr': seq<Hash>) {
    && Fold(cfg, c).Some? && Fold(cfg, c).value.record.Some?
    && PutLeaf(cfg, mmr, c.height, cfg.hash(Fold(cfg, c).value.record.value.manifest)) == Some(mmr')
  }

  /** The planned path to a block, oldest first, empty where there is nothing to plan. */
  function PathTo(cfg: Config, anchors: map<Commitment, Anchor>, id: BlockId): seq<Commitment> {
    match cfg.heightOf(id)
    case None => []
    case Some(height) =>
      if height < GenesisHeight(cfg) then []
      else match Plan(cfg, anchors, Commitment(height, id))
        case Err(_) => []
        case Ok(plan) => Reversed(plan.pending)
  }

  /** The block was not clear, so whatever comes after that run, it is not anchored. */
  ghost predicate OutOfReach(cfg: Config, events: seq<Event>, target: Commitment) {
    && Run(cfg, events).Some? && !Clear(cfg, Run(cfg, events).value.store, target)
    && (HashNamesBlock(cfg) ==> !CanAnchor(cfg, events, target))
  }

  /** A block that does not fold, or a planned path that the leaves are not right for, is out of reach. */
  lemma {:induction false} NotClearIsFinal(cfg: Config, events: seq<Event>, target: Commitment)
    requires ValidConfig(cfg) && Run(cfg, events).Some? && Run(cfg, events).value.phase.Idle?
    requires cfg.heightOf(target.blkid) == Some(target.height)
    ensures Fold(cfg, target).None? ==> OutOfReach(cfg, events, target)
    ensures var st := Run(cfg, events).value.store;
      && Plan(cfg, st.anchors, target).Ok?
      && (var plan := Plan(cfg, st.anchors, target).value;
          !PathRight(cfg, st.mmr, plan.baseBlock.height, Reversed(plan.pending)))
      ==> OutOfReach(cfg, events, target)
  {
    var st := Run(cfg, events).value.store;
    if Clear(cfg, st, target) {
      var plan := Plan(cfg, st.anchors, target).value;
      PathRightReversed(cfg, st.mmr, plan.baseBlock.height, plan.pending);
    }
    if HashNamesBlock(cfg) {
      RunKeepsInv(cfg, events);
      AnchoredIff(cfg, events, target);
    }
  }

  /** With the leaves right for a path, its first block is served. */
  lemma {:induction false} RightIsServed(cfg: Config, events: seq<Event>, todo: seq<Commitment>)
    requires ValidConfig(cfg) && Run(cfg, events).Some? && todo != []
    requires Run(cfg, events).value.phase.Syncing? && Run(cfg, events).value.phase.todo == todo
    requires var s := Run(cfg, events).value; PathRight(cfg, s.store.mmr, s.phase.mem.tip.height, todo)
    ensures Fold(cfg, todo[0]).Some? ==> !Unserved(cfg, Run(cfg, events).value.store.mmr, todo[0])
  {
    RunKeepsInv(cfg, events);
    assert todo[0] in todo;
    if Fold(cfg, todo[0]).Some? {
      ServedIffRight(cfg, Run(cfg, events).value.store.mmr, todo[0], Run(cfg, events).value.phase.mem.tip);
    }
  }

  /** And once its leaf is put, they are right for the rest. */
  lemma {:induction false} RightForRest(cfg: Config, events: seq<Event>, todo: seq<Commitment>, mmr: seq<Hash>)
    requires ValidConfig(cfg) && Run(cfg, events).Some? && todo != []
    requires Run(cfg, events).value.phase.Syncing? && Run(cfg, events).value.phase.todo == todo
    requires var s := Run(cfg, events).value; PathRight(cfg, s.store.mmr, s.phase.mem.tip.height, todo)
    requires LeafPut(cfg, todo[0], Run(cfg, events).value.store.mmr, mmr)
    ensures PathRight(cfg, mmr, todo[0].height, todo[1..])
  {
    RunKeepsInv(cfg, events);
    var s := Run(cfg, events).value;
    LeafKeepsRight(cfg, s.store.anchors, s.store.mmr, mmr, s.phase.mem.tip, todo);
  }

  lemma {:induction false} LeafKeepsRight(cfg: Config, anchors: map<Commitment, Anchor>, mmr: seq<Hash>,
      mmr': seq<Hash>,
      tip: Commitment, todo: seq<Commitment>)
    requires ValidConfig(cfg) && todo != [] && TodoInv(cfg, anchors, tip, todo)
    requires PathRight(cfg, mmr, tip.height, todo) && LeafPut(cfg, todo[0], mmr, mmr')
    ensures PathRight(cfg, mmr', todo[0].height, todo[1..])
  {
    var a, rest := todo[0], todo[1..];
    forall c | c in rest ensures RightUpTo(cfg, mmr', tip.height, c) {
      assert c in todo;
      RightKept(cfg, mmr, mmr', tip.height, c);
    }
    AnchoredBlockLeavesPath(cfg, anchors, tip, todo, Fold(cfg, a).value.anchor);
    OwnLeaf(cfg, a);
    PathRightGrows(cfg, anchors[a := Fold(cfg, a).value.anchor], mmr', a, rest);
  }

  /** What submitting a block that has a plan to carry out does to the machine. */
  lemma {:induction false} SubmitPlans(cfg: Config, s: Sys, target: Commitment)
    requires s.phase.Idle? && cfg.heightOf(target.blkid) == Some(target.height)
    requires target.height >= GenesisHeight(cfg)
    requires Plan(cfg, s.store.anchors, target).Ok? && Plan(cfg, s.store.anchors, target).value.pending != []
    ensures var plan := Plan(cfg, s.store.anchors, target).value;
      match RestoredMemory(cfg, s.store, s.phase.mem, plan.baseState, plan.baseBlock)
      case Ok(mem) =>
        && mem.tip == plan.baseBlock
        && Next(cfg, s, Submit(target.blkid)) == Some(s.(phase := Syncing(mem, Reversed(plan.pending))))
      case Err(_) => PlanFor(cfg, s.store, s.phase.mem, target.blkid).Err?
  {
  }

  /** For a block whose chain folds the worker finds a plan and recovers the predicate of its base. */
  lemma {:induction false} PlanKnown(cfg: Config, events: seq<Event>, target: Commitment)
    requires ValidConfig(cfg) && Run(cfg, events).Some? && Run(cfg, events).value.phase.Idle?
    requires cfg.heightOf(target.blkid) == Some(target.height)
    ensures var s := Run(cfg, events).value;
      && (Fold(cfg, target).Some? ==> PlanFor(cfg, s.store, s.phase.mem, target.blkid).Ok?)
  {
    RunKeepsInv(cfg, events);
    if Fold(cfg, target).Some? {
      SubmitAccepted(cfg, Run(cfg, events).value, target);
    }
  }

  /** Some reachable store makes a boot stage stop with `e`. */
  ghost predicate BootRefuses(cfg: Config, e: WorkerError) {
    exists events :: RefusedAfter(cfg, events, e)
  }

  ghost predicate RefusedAfter(cfg: Config, events: seq<Event>, e: WorkerError) {
    && Run(cfg, events).Some? && Run(cfg, events).value.phase.Booting?
    && BootError(cfg, Run(cfg, events).value) == Some(e)
  }

  /** None does: a restart of this code over its own stores never stops by itself. */
  lemma {:induction false} BootNeverRefuses(cfg: Config, e: WorkerError)
    requires ValidConfig(cfg)
    ensures !BootRefuses(cfg, e)
  {
    forall events | Run(cfg, events).Some? && Run(cfg, events).value.phase.Booting?
      ensures !RefusedAfter(cfg, events, e)
    {
      RunKeepsInv(cfg, events);
      BootNeverRefused(cfg, Run(cfg, events).value);
    }
  }

  /**
   What start-up asks of a configuration: a target for the genesis predicate, one
   that runs the spec of the genesis state, and an anchor that matches L1.
   */
  lemma {:induction false} ConfigErrorIff(cfg: Config)
    requires OneToOne(cfg.targets)
    ensures ConfigError(cfg) == Some(UnsupportedExecutionPredicate) <==>
            forall t :: t in cfg.targets ==> t.key != cfg.genesisPredicate
    ensures ConfigError(cfg) == Some(GenesisSpecMismatch) <==>
            exists t :: t in cfg.targets && t.key == cfg.genesisPredicate && t.specId != cfg.genesis.specId
    ensures ConfigError(cfg) == Some(AnchorMismatch) <==>
            Target(cfg.genesisPredicate, cfg.genesis.specId) in cfg.targets && !cfg.anchorMatchesL1
    ensures ConfigError(cfg).None? <==>
            Target(cfg.genesisPredicate, cfg.genesis.specId) in cfg.targets && cfg.anchorMatchesL1
  {
    ResolveFinds(cfg.targets, cfg.genesisPredicate);
    forall t | t in cfg.targets && t.key == cfg.genesisPredicate
      ensures Resolve(cfg.targets, cfg.genesisPredicate) == Some(t.specId)
    {
      var i :| 0 <= i < |cfg.targets| && cfg.targets[i] == t;
      assert cfg.targets[i].key == cfg.genesisPredicate;
    }
  }

  /** Start-up: the configuration, then genesis, the MMR seed, the first anchor, and the predicate. */
  method New(context: WorkerContext) returns (r: Result<AsmWorkerServiceState, WorkerError>)
    requires context.Valid() && context.sys.phase.Down?
    requires OneToOne(context.cfg.targets) && |context.cfg.genesis.acc| == GenesisHeight(context.cfg) + 1
    modifies context
    ensures context.Valid()
    ensures r.Ok? ==>
      && fresh(r.value) && r.value.context == context && r.value.Valid()
      && (old(context.anchors) == map[] ==> r.value.blkid == context.cfg.genesis.block)
      && (old(context.anchors) != map[] ==> IsLatest(old(context.anchors), Some(r.value.blkid)))
    ensures r.Err? ==>
      && context.sys.phase.Down?
      && (|| ConfigError(context.cfg) == Some(r.error)
          || (r.error == StoreFailure && context.fuel == 0)
          || BootRefuses(context.cfg, r.error))
    ensures ConfigError(context.cfg).Some? ==> r.Err?
  {
    var cfg := context.cfg;
    var error := ConfigError(cfg);
    if error.Some? {
      return Err(error.value);
    }
    var latest := context.GetLatestAnchorState();
    context.Step(Boot(latest));

    var failure := CheckStoredGenesis(context, latest);
    if failure.Some? {
      return Err(failure.value);
    }
    failure := SeedManifestMmr(context, latest);
    if failure.Some? {
      return Err(failure.value);
    }
    failure := StoreFirstAnchor(context, latest);
    if failure.Some? {
      return Err(failure.value);
    }

    var anchor :=
      if latest.Some? && latest.value in context.anchors then context.anchors[latest.value] else cfg.genesis;
    var key := Recover(cfg, context.manifests, anchor);
    if key.Err? {
      assert RefusedAfter(cfg, context.events, key.error);
      context.Die();
      return Err(key.error);
    }
    BootAdvances(cfg, context.events);
    context.Step(BootStep);
    var state := new AsmWorkerServiceState.Resumed(context, anchor, key.value);
    return Ok(state);
  }

  /** A stored genesis must be the configured one; one missing below a later anchor is put back. */
  method CheckStoredGenesis(context: WorkerContext, latest: Option<Commitment>) returns (failure: Option<WorkerError>)
    requires context.Valid() && context.sys.phase == Booting(latest, CheckGenesis)
    modifies context
    ensures context.Valid()
    ensures context.sys.phase == if failure.None? then Booting(latest, SeedMmr) else Down
    ensures failure.Some? ==>
      (failure.value == StoreFailure && context.fuel == 0) || BootRefuses(context.cfg, failure.value)
  {
    var genesis := context.cfg.genesis;
    if genesis.block in context.anchors {
      if context.anchors[genesis.block] != genesis {
        assert RefusedAfter(context.cfg, context.events, GenesisStateMismatch);
        context.Die();
        return Some(GenesisStateMismatch);
      }
    } else if latest.Some? {
      var ok := context.Spend();
      if !ok {
        return Some(StoreFailure);
      }
      context.anchors := context.anchors[genesis.block := genesis];
    }
    context.Step(BootStep);
    return None;
  }

  /** Seeds an empty MMR from the genesis accumulator; a partly filled one is an error. */
  method SeedManifestMmr(context: WorkerContext, latest: Option<Commitment>) returns (failure: Option<WorkerError>)
    requires context.Valid() && context.sys.phase == Booting(latest, SeedMmr)
    modifies context
    ensures context.Valid()
    ensures context.sys.phase == if failure.None? then Booting(latest, StoreGenesis) else Down
    ensures failure.Some? ==>
      (failure.value == StoreFailure && context.fuel == 0) || BootRefuses(context.cfg, failure.value)
  {
    var accumulator := context.cfg.genesis.acc;
    if |context.mmr| == 0 {
      var ok := context.Spend();
      if !ok {
        return Some(StoreFailure);
      }
      context.mmr := accumulator;
    } else if |context.mmr| < |accumulator| {
      assert RefusedAfter(context.cfg, context.events, PartialManifestMmr);
      context.Die();
      return Some(PartialManifestMmr);
    }
    context.Step(BootStep);
    return None;
  }

  /** With nothing stored, genesis becomes the first anchor. */
  method StoreFirstAnchor(context: WorkerContext, latest: Option<Commitment>) returns (failure: Option<WorkerError>)
    requires context.Valid() && context.sys.phase == Booting(latest, StoreGenesis)
    modifies context
    ensures context.Valid()
    ensures context.sys.phase == if failure.None? then Booting(latest, Resume) else Down
    ensures failure.Some? ==> failure.value == StoreFailure && context.fuel == 0
  {
    var genesis := context.cfg.genesis;
    if latest.None? {
      var ok := context.Spend();
      if !ok {
        return Some(StoreFailure);
      }
      context.anchors := context.anchors[genesis.block := genesis];
    }
    context.Step(BootStep);
    return None;
  }

  /**
   Why a block is refused: it does not fold, or the leaves do not serve it, which
   never happens in a run that stays on the last written branch.
   */
  lemma {:induction false} TransitionErrors(cfg: Config, events: seq<Event>, block: Commitment)
    requires ValidConfig(cfg) && Run(cfg, events).Some? && Run(cfg, events).value.phase.Syncing?
    requires Run(cfg, events).value.phase.todo != [] && Run(cfg, events).value.phase.todo[0] == block
    requires var s := Run(cfg, events).value;
      Transition(cfg, s.store.mmr, s.phase.mem.next, s.phase.mem.anchor, block.blkid).Err?
    ensures var s := Run(cfg, events).value;
      var error := Transition(cfg, s.store.mmr, s.phase.mem.next, s.phase.mem.anchor, block.blkid).error;
      && error in {UnsupportedExecutionPredicate, AuxUnresolved, AsmError}
      && (Fold(cfg, block).None? ||
          (error == AsmError && Unserved(cfg, s.store.mmr, block) && !SingleBranchRun(cfg, events)))
  {
    RunKeepsInv(cfg, events);
    var s := Run(cfg, events).value;
    HeightAssertionNeverFires(cfg, s.store.mmr, s.phase.mem.tip, block.blkid);
    ExecuteIff(cfg, s.store, s.phase.mem, block);
    if SingleBranchRun(cfg, events) {
      SingleBranchServes(cfg, events);
    }
  }

  lemma {:induction false} SingleBranchSnoc(cfg: Config, events: seq<Event>, e: Event)
    ensures SingleBranchRun(cfg, events + [e]) ==> SingleBranchRun(cfg, events)
  {
    var more := events + [e];
    if SingleBranchRun(cfg, more) {
      forall i | 0 <= i < |events| && Run(cfg, events[..i]).Some?
        ensures BaseOnLastBranch(cfg, Run(cfg, events[..i]).value, events[i])
      {
        assert more[..i] == events[..i] && more[i] == events[i];
      }
    }
  }

  /** If the next block of a sync does not fold, neither does its last one. */
  lemma {:induction false} PathBroken(cfg: Config, events: seq<Event>, mem: Mem, processed: seq<Commitment>, i: nat)
    requires ValidConfig(cfg) && Run(cfg, events).Some? && i < |processed|
    requires Run(cfg, events).value.phase == Syncing(mem, processed[i..])
    ensures Fold(cfg, processed[i]).None? ==> Fold(cfg, processed[|processed| - 1]).None?
  {
    RunKeepsInv(cfg, events);
    var todo := processed[i..];
    assert todo[|todo| - 1] == processed[|processed| - 1];
    if Fold(cfg, todo[|todo| - 1]).Some? {
      NextBlockFolds(cfg, Run(cfg, events).value);
    }
  }

  /** The state a block's execution yields is keyed by that block. */
  lemma {:induction false} BlockNamesItself(cfg: Config, events: seq<Event>, block: Commitment)
    requires ValidConfig(cfg) && Run(cfg, events).Some?
    requires var p := Run(cfg, events).value.phase; p.Applying? && p.todo != [] && p.todo[0] == block
    ensures var run := Run(cfg, events).value.phase.run;
      && run.output.state.block == block && RunInv(cfg, block, run)
      && run.output.manifest.height == block.height
  {
    RunKeepsInv(cfg, events);
    FoldShape(cfg, block);
  }
}
