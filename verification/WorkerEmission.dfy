/**
 Which anchored blocks subscribers hear of: all but those at which a crash fell
 between the anchor write and the announcement. Those are never announced.
 */
module WorkerEmission {
  import opened Wrappers
  import opened Sync
  import opened Worker
  import opened WorkerSafety

  /** The block that is anchored but not announced yet. */
  function Unannounced(p: Phase): set<Commitment> {
    if p.Applying? && p.stage.AnchorWritten? && p.todo != [] then {p.todo[0]} else {}
  }

  /** The blocks at which a crash of the run fell right after their anchor write. */
  ghost function Lost(cfg: Config, events: seq<Event>): set<Commitment> {
    if events == [] then {}
    else
      var n := |events| - 1;
      var before := Run(cfg, events[..n]);
      Lost(cfg, events[..n]) + if events[n].Crash? && before.Some? then Unannounced(before.value.phase) else {}
  }

  function Announced(emitted: seq<Commitment>): set<Commitment> {
    set c | c in emitted
  }

  /** Every anchored block but genesis is announced, lost, or about to be announced, and only one of these. */
  ghost predicate Accounted(cfg: Config, s: Sys, lost: set<Commitment>) {
    && s.store.anchors.Keys - {cfg.genesis.block} == Announced(s.emitted) + lost + Unannounced(s.phase)
    && Announced(s.emitted) !! lost && Announced(s.emitted) !! Unannounced(s.phase) && lost !! Unannounced(s.phase)
  }

  /** The anchor about to be written is that of a new block. */
  ghost predicate WritesNewAnchor(cfg: Config, s: Sys)
    requires s.phase.Applying?
  {
    && s.phase.todo != [] && s.phase.run.output.state.block == s.phase.todo[0]
    && s.phase.todo[0] != cfg.genesis.block && s.phase.todo[0] !in s.store.anchors
  }

  lemma {:induction false} AnchorIsNew(cfg: Config, s: Sys)
    requires ValidConfig(cfg) && Inv(cfg, s) && s.phase.Applying? && s.phase.stage.AuxWritten?
    ensures WritesNewAnchor(cfg, s)
  {
    FoldShape(cfg, s.phase.todo[0]);
  }

  lemma {:induction false} WriteKeepsAccount(cfg: Config, s: Sys, s': Sys, lost: set<Commitment>)
    requires s.phase.Applying? && s.phase.todo != [] && NextWrite(cfg, s) == Some(s') && Accounted(cfg, s, lost)
    requires s.phase.stage.AuxWritten? ==> WritesNewAnchor(cfg, s)
    ensures Accounted(cfg, s', lost)
  {
    if s.phase.stage.AuxWritten? {
      assert s'.store.anchors.Keys == s.store.anchors.Keys + {s.phase.todo[0]};
    }
  }

  lemma {:induction false} AcceptKeepsAccount(cfg: Config, s: Sys, lost: set<Commitment>)
    requires s.phase.Applying? && s.phase.stage.AnchorWritten? && s.phase.todo != [] && Accounted(cfg, s, lost)
    ensures Accounted(cfg, AfterAccept(s), lost)
  {
    assert Announced(AfterAccept(s).emitted) == Announced(s.emitted) + {s.phase.todo[0]};
  }

  lemma {:induction false} BootKeepsAccount(cfg: Config, s: Sys, s': Sys, lost: set<Commitment>)
    requires s.phase.Booting? && NextBoot(cfg, s) == Some(s') && Accounted(cfg, s, lost)
    ensures Accounted(cfg, s', lost)
  {
    assert s'.store.anchors.Keys - {cfg.genesis.block} == s.store.anchors.Keys - {cfg.genesis.block};
  }

  lemma {:induction false} StepKeepsAccount(cfg: Config, s: Sys, e: Event, s': Sys, lost: set<Commitment>)
    requires Next(cfg, s, e) == Some(s') && Accounted(cfg, s, lost)
    requires s.phase.Applying? && s.phase.stage.AuxWritten? ==> WritesNewAnchor(cfg, s)
    ensures Accounted(cfg, s', lost + if e.Crash? then Unannounced(s.phase) else {})
  {
    assert lost + {} == lost;
    match e
    case Crash =>
    case Boot(_) =>
    case BootStep => BootKeepsAccount(cfg, s, s', lost);
    case Submit(_) =>
    case Execute =>
    case Write => WriteKeepsAccount(cfg, s, s', lost);
    case Accept => AcceptKeepsAccount(cfg, s, lost);
  }

  /** Over every run, the anchored blocks are exactly accounted for. */
  lemma {:induction false} RunKeepsAccount(cfg: Config, events: seq<Event>)
    requires ValidConfig(cfg) && Run(cfg, events).Some?
    ensures Accounted(cfg, Run(cfg, events).value, Lost(cfg, events))
  {
    if events != [] {
      var n := |events| - 1;
      var before := events[..n];
      RunKeepsAccount(cfg, before);
      var s := Run(cfg, before).value;
      if s.phase.Applying? && s.phase.stage.AuxWritten? {
        RunKeepsInv(cfg, before);
        AnchorIsNew(cfg, s);
      }
      StepKeepsAccount(cfg, s, events[n], Run(cfg, events).value, Lost(cfg, before));
    }
  }

  lemma {:induction false} LostStaysLost(cfg: Config, events: seq<Event>, more: seq<Event>)
    requires events <= more
    ensures Lost(cfg, events) <= Lost(cfg, more)
    decreases |more|
  {
    if events != more {
      var before := more[..|more| - 1];
      assert events <= before;
      LostStaysLost(cfg, events, before);
    }
  }

  /**
   An anchored block other than genesis has been announced if and only if no crash
   fell between its anchor write and its announcement and it is not at that point
   now; after such a crash no continuation ever announces it.
   */
  lemma {:induction false} AnnouncedIff(cfg: Config, events: seq<Event>, more: seq<Event>, c: Commitment)
    requires ValidConfig(cfg) && events <= more && Run(cfg, events).Some? && Run(cfg, more).Some?
    requires c in Run(cfg, events).value.store.anchors && c != cfg.genesis.block
    ensures c in Run(cfg, events).value.emitted <==>
            c !in Lost(cfg, events) && c !in Unannounced(Run(cfg, events).value.phase)
    ensures c in Lost(cfg, events) ==> c !in Run(cfg, more).value.emitted
  {
    RunKeepsAccount(cfg, events);
    RunKeepsAccount(cfg, more);
    LostStaysLost(cfg, events, more);
    assert c in Run(cfg, events).value.emitted <==> c in Announced(Run(cfg, events).value.emitted);
    assert c in Run(cfg, more).value.emitted <==> c in Announced(Run(cfg, more).value.emitted);
  }
}
