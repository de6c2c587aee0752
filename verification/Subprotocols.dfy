/**
 The stages of a block: every subprotocol is loaded from its section, processes
 its transactions while its messages to others are buffered, and then finishes
 with the messages it received.
 */
module Subprotocols {
  import opened Wrappers

  type SubprotocolId = nat
  type SubState = nat
  type Msg = nat
  type Log = nat

  datatype Effect = Relay(to: SubprotocolId, msg: Msg) | EmitLog(log: Log)

  datatype Processed = Processed(state: SubState, effects: seq<Effect>)

  /**
   A spec: the subprotocols in order, what each does with the block's transactions,
   and what it does with the messages it was sent.
   */
  datatype Spec = Spec(
    order: seq<SubprotocolId>,
    processTxs: (SubprotocolId, SubState) -> Processed,
    processMsgs: (SubprotocolId, SubState, seq<Msg>) -> SubState)

  datatype Handler = Handler(state: SubState, inbox: seq<Msg>)

  datatype Section = Section(id: SubprotocolId, state: SubState)

  /** The panics of the manager and of the loader. */
  datatype Panic = MissingSection | OverwrittenHandler | UnloadedSubprotocol | MessageToUnloaded

  // ---- What the stages should compute --------------------------------------------------------

  function MsgsTo(effects: seq<Effect>, id: SubprotocolId): seq<Msg> {
    if effects == [] then []
    else MsgsTo(effects[..|effects| - 1], id) +
         (var e := effects[|effects| - 1]; if e.Relay? && e.to == id then [e.msg] else [])
  }

  function LogsOf(effects: seq<Effect>): seq<Log> {
    if effects == [] then []
    else LogsOf(effects[..|effects| - 1]) +
         (var e := effects[|effects| - 1]; if e.EmitLog? then [e.log] else [])
  }

  function Process(spec: Spec, sections: map<SubprotocolId, SubState>, id: SubprotocolId): Processed
    requires id in sections
  {
    spec.processTxs(id, sections[id])
  }

  /** All effects of the first `n` subprotocols, in the order they happen. */
  function EffectsOf(spec: Spec, sections: map<SubprotocolId, SubState>, n: nat): seq<Effect>
    requires n <= |spec.order| && forall id :: id in spec.order ==> id in sections
  {
    if n == 0 then []
    else EffectsOf(spec, sections, n - 1) + Process(spec, sections, spec.order[n - 1]).effects
  }

  /** A subprotocol's effects name loaded subprotocols other than itself. */
  predicate PoliteEffects(order: seq<SubprotocolId>, id: SubprotocolId, effects: seq<Effect>) {
    forall e :: e in effects && e.Relay? ==> e.to in order && e.to != id
  }

  predicate Loadable(spec: Spec, sections: map<SubprotocolId, SubState>) {
    && (forall i :: 0 <= i < |spec.order| ==> spec.order[i] in sections)
    && (forall i, j :: 0 <= i < j < |spec.order| ==> spec.order[i] != spec.order[j])
  }

  predicate PoliteAt(spec: Spec, sections: map<SubprotocolId, SubState>, i: nat)
    requires Loadable(spec, sections) && i < |spec.order|
  {
    PoliteEffects(spec.order, spec.order[i], Process(spec, sections, spec.order[i]).effects)
  }

  /** All subprotocols from the `i`-th on are polite. */
  predicate PoliteFrom(spec: Spec, sections: map<SubprotocolId, SubState>, i: nat)
    requires Loadable(spec, sections) && i <= |spec.order|
    decreases |spec.order| - i
  {
    i < |spec.order| ==> PoliteAt(spec, sections, i) && PoliteFrom(spec, sections, i + 1)
  }

  predicate Polite(spec: Spec, sections: map<SubprotocolId, SubState>)
    requires Loadable(spec, sections)
  {
    forall i: nat :: i < |spec.order| ==> PoliteAt(spec, sections, i)
  }

  lemma {:induction false} PoliteFromIff(spec: Spec, sections: map<SubprotocolId, SubState>, i: nat)
    requires Loadable(spec, sections) && i <= |spec.order|
    ensures PoliteFrom(spec, sections, i) <==> forall k: nat :: i <= k < |spec.order| ==> PoliteAt(spec, sections, k)
    decreases |spec.order| - i
  {
    if i < |spec.order| {
      PoliteFromIff(spec, sections, i + 1);
    }
  }

  lemma {:induction false} PoliteIff(spec: Spec, sections: map<SubprotocolId, SubState>)
    requires Loadable(spec, sections)
    ensures PoliteFrom(spec, sections, 0) <==> Polite(spec, sections)
  {
    PoliteFromIff(spec, sections, 0);
  }

  /** The state a subprotocol ends the block with. */
  function Finished(spec: Spec, sections: map<SubprotocolId, SubState>, id: SubprotocolId): SubState
    requires Loadable(spec, sections) && id in spec.order
  {
    spec.processMsgs(id, Process(spec, sections, id).state, MsgsTo(EffectsOf(spec, sections, |spec.order|), id))
  }

  lemma {:induction false} MsgsAppend(a: seq<Effect>, b: seq<Effect>, id: SubprotocolId)
    ensures MsgsTo(a + b, id) == MsgsTo(a, id) + MsgsTo(b, id)
    ensures LogsOf(a + b) == LogsOf(a) + LogsOf(b)
    decreases |b|
  {
    if b == [] {
      assert a + b == a;
    } else {
      var n := |b| - 1;
      assert (a + b)[..|a + b| - 1] == a + b[..n];
      MsgsAppend(a, b[..n], id);
    }
  }

  /** A message stands behind those relayed to the same receiver before it, and a log behind those emitted before it. */
  lemma {:induction false} EffectPlace(effects: seq<Effect>, i: nat, id: SubprotocolId)
    requires i < |effects|
    ensures var before, e := effects[..i], effects[i];
      var inbox, logs := |MsgsTo(before, id)|, |LogsOf(before)|;
      && (e.Relay? && e.to == id ==> inbox < |MsgsTo(effects, id)| && MsgsTo(effects, id)[inbox] == e.msg)
      && (e.EmitLog? ==> logs < |LogsOf(effects)| && LogsOf(effects)[logs] == e.log)
    decreases |effects|
  {
    var n := |effects| - 1;
    if i < n {
      assert effects[..n][..i] == effects[..i];
      EffectPlace(effects[..n], i, id);
    }
  }

  /** Nothing else is delivered or logged: each message and log comes from the effect that has its place. */
  lemma {:induction false} MsgOrigin(effects: seq<Effect>, id: SubprotocolId, k: nat) returns (i: nat)
    requires k < |MsgsTo(effects, id)|
    ensures i < |effects| && effects[i] == Relay(id, MsgsTo(effects, id)[k]) && |MsgsTo(effects[..i], id)| == k
  {
    var n := |effects| - 1;
    var rest := effects[..n];
    if k < |MsgsTo(rest, id)| {
      i := MsgOrigin(rest, id, k);
      assert rest[..i] == effects[..i];
    } else {
      i := n;
    }
  }

  lemma {:induction false} LogOrigin(effects: seq<Effect>, k: nat) returns (i: nat)
    requires k < |LogsOf(effects)|
    ensures i < |effects| && effects[i] == EmitLog(LogsOf(effects)[k]) && |LogsOf(effects[..i])| == k
  {
    var n := |effects| - 1;
    var rest := effects[..n];
    if k < |LogsOf(rest)| {
      i := LogOrigin(rest, k);
      assert rest[..i] == effects[..i];
    } else {
      i := n;
    }
  }

  /** The effects of a block are those of its subprotocols, one after the other in the order of the spec. */
  lemma {:induction false} EffectsInOrder(spec: Spec, sections: map<SubprotocolId, SubState>, k: nat, n: nat)
    requires k < n <= |spec.order| && forall id :: id in spec.order ==> id in sections
    ensures EffectsOf(spec, sections, 0) == []
    ensures var id := spec.order[k];
      EffectsOf(spec, sections, k) + spec.processTxs(id, sections[id]).effects <= EffectsOf(spec, sections, n)
    ensures var id := spec.order[k];
      |EffectsOf(spec, sections, k + 1)| ==
      |EffectsOf(spec, sections, k)| + |spec.processTxs(id, sections[id]).effects|
  {
    if k < n - 1 {
      EffectsInOrder(spec, sections, k, n - 1);
    }
  }

  predicate RelaysWithin(effects: seq<Effect>, ids: set<SubprotocolId>) {
    forall e :: e in effects && e.Relay? ==> e.to in ids
  }

  /** The inboxes of `after` are those of `before` plus the messages among `effects`. */
  ghost predicate Delivered(before: map<SubprotocolId, Handler>, after: map<SubprotocolId, Handler>,
      effects: seq<Effect>)
  {
    && after.Keys == before.Keys
    && forall id :: id in after ==> after[id] == Handler(before[id].state, before[id].inbox + MsgsTo(effects, id))
  }

  lemma {:induction false} DeliverOne(before: map<SubprotocolId, Handler>, after: map<SubprotocolId, Handler>,
      effects: seq<Effect>, e: Effect)
    requires Delivered(before, after, effects)
    ensures e.EmitLog? ==> Delivered(before, after, effects + [e])
    ensures e.Relay? && e.to in after ==>
      Delivered(before, after[e.to := Handler(after[e.to].state, after[e.to].inbox + [e.msg])], effects + [e])
    ensures LogsOf(effects + [e]) == LogsOf(effects) + if e.EmitLog? then [e.log] else []
  {
    assert (effects + [e])[..|effects|] == effects;
  }

  // ---- The manager -----------------------------------------------------------------------------

  class SubprotoManager {
    var handlers: map<SubprotocolId, Handler>
    var logs: seq<Log>

    constructor ()
      ensures handlers == map[] && logs == []
    {
      handlers, logs := map[], [];
    }

    method InsertHandler(id: SubprotocolId, handler: Handler) returns (panic: Option<Panic>)
      modifies this`handlers
      ensures panic.None? <==> id !in old(handlers)
      ensures handlers == if panic.None? then old(handlers)[id := handler] else old(handlers)
    {
      if id in handlers {
        return Some(OverwrittenHandler);
      }
      handlers := handlers[id := handler];
      return None;
    }

    method RelayMsg(to: SubprotocolId, msg: Msg) returns (panic: Option<Panic>)
      modifies this`handlers
      ensures panic.None? <==> to in old(handlers)
      ensures panic.Some? ==> handlers == old(handlers)
      ensures panic.None? ==>
        var was := old(handlers)[to];
        handlers == old(handlers)[to := Handler(was.state, was.inbox + [msg])]
    {
      if to !in handlers {
        return Some(MessageToUnloaded);
      }
      var h := handlers[to];
      handlers := handlers[to := h.(inbox := h.inbox + [msg])];
      return None;
    }

    /** Carries out a subprotocol's effects one by one, as it makes them. */
    method RunEffects(effects: seq<Effect>) returns (panic: Option<Panic>)
      modifies this
      ensures panic.None? <==> RelaysWithin(effects, old(handlers).Keys)
      ensures panic.None? ==>
        logs == old(logs) + LogsOf(effects) && Delivered(old(handlers), handlers, effects)
    {
      ghost var before := handlers;
      for i := 0 to |effects|
        invariant RelaysWithin(effects[..i], before.Keys)
        invariant logs == old(logs) + LogsOf(effects[..i])
        invariant Delivered(before, handlers, effects[..i])
      {
        DeliverOne(before, handlers, effects[..i], effects[i]);
        assert effects[..i + 1] == effects[..i] + [effects[i]];
        match effects[i]
        case Relay(to, msg) =>
          var p := RelayMsg(to, msg);
          if p.Some? {
            assert effects[i] in effects;
            return p;
          }
        case EmitLog(log) =>
          logs := logs + [log];
      }
      assert effects[..|effects|] == effects;
      return None;
    }

    /** The handler is out of the map while it runs, so it cannot be messaged by itself. */
    method InvokeProcessTxs(spec: Spec, id: SubprotocolId) returns (panic: Option<Panic>)
      modifies this
      ensures panic.None? <==>
        && id in old(handlers)
        && RelaysWithin(spec.processTxs(id, old(handlers)[id].state).effects, old(handlers).Keys - {id})
      ensures panic.None? ==>
        var done := spec.processTxs(id, old(handlers)[id].state);
        && handlers.Keys == old(handlers).Keys
        && logs == old(logs) + LogsOf(done.effects)
        && handlers[id] == Handler(done.state, old(handlers)[id].inbox)
        && forall other :: other in handlers && other != id ==>
             var was := old(handlers)[other];
             handlers[other] == Handler(was.state, was.inbox + MsgsTo(done.effects, other))
    {
      if id !in handlers {
        return Some(UnloadedSubprotocol);
      }
      var h := handlers[id];
      handlers := handlers - {id};
      var done := spec.processTxs(id, h.state);
      var p := RunEffects(done.effects);
      if p.Some? {
        return p;
      }
      p := InsertHandler(id, Handler(done.state, h.inbox));
      return p;
    }

    method InvokeProcessMsgs(spec: Spec, id: SubprotocolId) returns (panic: Option<Panic>)
      modifies this`handlers
      ensures panic.None? <==> id in old(handlers)
      ensures panic.Some? ==> handlers == old(handlers)
      ensures panic.None? ==>
        var was := old(handlers)[id];
        handlers == old(handlers)[id := Handler(spec.processMsgs(id, was.state, was.inbox), was.inbox)]
    {
      if id !in handlers {
        return Some(UnloadedSubprotocol);
      }
      var h := handlers[id];
      handlers := handlers[id := h.(state := spec.processMsgs(id, h.state, h.inbox))];
      return None;
    }

    /** The sections by ascending id, as the ordered map yields them, and the logs. */
    method ExportSectionsAndLogs() returns (sections: seq<Section>, emitted: seq<Log>)
      ensures Exports(handlers, sections) && |sections| == |handlers.Keys| && emitted == logs
    {
      sections, emitted := [], logs;
      var left := handlers.Keys;
      while left != {}
        invariant left <= handlers.Keys
        invariant |sections| + |left| == |handlers.Keys|
        invariant Exports(handlers, sections)
        invariant forall i, id :: 0 <= i < |sections| && id in left ==> sections[i].id < id
        decreases |left|
      {
        var id := Least(left);
        sections := sections + [Section(id, handlers[id].state)];
        left := left - {id};
      }
    }
  }

  /** Sections in strict id order, each with its handler's state. */
  ghost predicate Exports(handlers: map<SubprotocolId, Handler>, sections: seq<Section>) {
    && (forall i, j :: 0 <= i < j < |sections| ==> sections[i].id < sections[j].id)
    && (forall i :: 0 <= i < |sections| ==>
          sections[i].id in handlers && sections[i].state == handlers[sections[i].id].state)
  }

  method Least(ids: set<SubprotocolId>) returns (m: SubprotocolId)
    requires ids != {}
    ensures m in ids && forall id :: id in ids ==> m <= id
  {
    m :| m in ids;
    var left := ids - {m};
    while left != {}
      invariant left <= ids && m in ids
      invariant forall id :: id in ids && id !in left ==> m <= id
      decreases left
    {
      var id :| id in left;
      left := left - {id};
      if id < m {
        m := id;
      }
    }
  }

  // ---- The stages ---------------------------------------------------------------------------------

  ghost predicate LoadedUpTo(spec: Spec, sections: map<SubprotocolId, SubState>,
      handlers: map<SubprotocolId, Handler>, i: nat)
    requires i <= |spec.order|
  {
    && handlers.Keys == (set k | 0 <= k < i :: spec.order[k])
    && (forall k :: 0 <= k < i ==>
          spec.order[k] in sections && handlers[spec.order[k]] == Handler(sections[spec.order[k]], []))
    && (forall j, k :: 0 <= j < k < i ==> spec.order[j] != spec.order[k])
  }

  /** LOAD: a handler per subprotocol, from its section. */
  method Load(spec: Spec, sections: map<SubprotocolId, SubState>, manager: SubprotoManager)
      returns (panic: Option<Panic>)
    requires manager.handlers == map[] && manager.logs == []
    modifies manager
    ensures panic.None? <==> Loadable(spec, sections)
    ensures panic.None? ==> manager.logs == [] && LoadedUpTo(spec, sections, manager.handlers, |spec.order|)
  {
    for i := 0 to |spec.order|
      invariant LoadedUpTo(spec, sections, manager.handlers, i) && manager.logs == []
    {
      var id := spec.order[i];
      if id !in sections {
        return Some(MissingSection);
      }
      panic := manager.InsertHandler(id, Handler(sections[id], []));
      if panic.Some? {
        return;
      }
    }
    return None;
  }

  /** The first `i` subprotocols have processed; every message so far is in its receiver's buffer. */
  ghost predicate ProcessedUpTo(spec: Spec, sections: map<SubprotocolId, SubState>,
      handlers: map<SubprotocolId, Handler>, logs: seq<Log>, i: nat)
    requires Loadable(spec, sections) && i <= |spec.order|
  {
    && handlers.Keys == (set k | 0 <= k < |spec.order| :: spec.order[k])
    && logs == LogsOf(EffectsOf(spec, sections, i))
    && forall k :: 0 <= k < |spec.order| ==>
         var id := spec.order[k];
         handlers[id] == Handler(if k < i then Process(spec, sections, id).state else sections[id],
                                 MsgsTo(EffectsOf(spec, sections, i), id))
  }

  lemma {:induction false} NoMsgsToSelf(order: seq<SubprotocolId>, id: SubprotocolId, effects: seq<Effect>)
    requires PoliteEffects(order, id, effects)
    ensures MsgsTo(effects, id) == []
  {
    if effects != [] {
      NoMsgsToSelf(order, id, effects[..|effects| - 1]);
    }
  }

  /** PROCESS: each in turn, from the `i`-th on; messages are only buffered. */
  method ProcessFrom(spec: Spec, sections: map<SubprotocolId, SubState>, manager: SubprotoManager, i: nat)
      returns (panic: Option<Panic>)
    requires Loadable(spec, sections) && i <= |spec.order|
    requires ProcessedUpTo(spec, sections, manager.handlers, manager.logs, i)
    modifies manager
    ensures panic.None? <==> PoliteFrom(spec, sections, i)
    ensures panic.None? ==> ProcessedUpTo(spec, sections, manager.handlers, manager.logs, |spec.order|)
    decreases |spec.order| - i
  {
    if i == |spec.order| {
      return None;
    }
    panic := ProcessOne(spec, sections, manager, i);
    if panic.None? {
      panic := ProcessFrom(spec, sections, manager, i + 1);
    }
  }

  method ProcessOne(spec: Spec, sections: map<SubprotocolId, SubState>, manager: SubprotoManager, i: nat)
      returns (panic: Option<Panic>)
    requires Loadable(spec, sections) && i < |spec.order|
    requires ProcessedUpTo(spec, sections, manager.handlers, manager.logs, i)
    modifies manager
    ensures panic.None? <==> PoliteAt(spec, sections, i)
    ensures panic.None? ==> ProcessedUpTo(spec, sections, manager.handlers, manager.logs, i + 1)
  {
    ghost var before := manager.handlers;
    var id := spec.order[i];
    assert before[id].state == sections[id];
    assert forall o :: o in before <==> o in spec.order;
    panic := manager.InvokeProcessTxs(spec, id);
    if panic.None? {
      StepProcessed(spec, sections, before, manager.handlers, i);
      MsgsAppend(EffectsOf(spec, sections, i), Process(spec, sections, id).effects, id);
    }
  }

  lemma {:induction false} StepProcessed(spec: Spec, sections: map<SubprotocolId, SubState>,
      before: map<SubprotocolId, Handler>, after: map<SubprotocolId, Handler>, i: nat)
    requires Loadable(spec, sections) && i < |spec.order|
    requires ProcessedUpTo(spec, sections, before, LogsOf(EffectsOf(spec, sections, i)), i)
    requires PoliteEffects(spec.order, spec.order[i], Process(spec, sections, spec.order[i]).effects)
    requires after.Keys == before.Keys
    requires var done := Process(spec, sections, spec.order[i]);
      && after[spec.order[i]] == Handler(done.state, before[spec.order[i]].inbox)
      && forall o :: o in after && o != spec.order[i] ==>
           after[o] == Handler(before[o].state, before[o].inbox + MsgsTo(done.effects, o))
    ensures ProcessedUpTo(spec, sections, after, LogsOf(EffectsOf(spec, sections, i + 1)), i + 1)
  {
    var own := spec.order[i];
    var done := Process(spec, sections, own);
    NoMsgsToSelf(spec.order, own, done.effects);
    forall k | 0 <= k < |spec.order|
      ensures var id := spec.order[k];
        after[id] == Handler(if k < i + 1 then Process(spec, sections, id).state else sections[id],
                             MsgsTo(EffectsOf(spec, sections, i + 1), id))
    {
      var id := spec.order[k];
      MsgsAppend(EffectsOf(spec, sections, i), done.effects, id);
      assert k < i ==> spec.order[k] != spec.order[i];
      assert i < k ==> spec.order[i] != spec.order[k];
      assert id in after;
    }
  }

  /** Exactly the subprotocols of the spec are loaded, each in the state it ends the block with. */
  ghost predicate FinishedAll(spec: Spec, sections: map<SubprotocolId, SubState>, handlers: map<SubprotocolId, Handler>)
    requires Loadable(spec, sections)
  {
    && handlers.Keys == (set k | 0 <= k < |spec.order| :: spec.order[k])
    && forall k :: 0 <= k < |spec.order| ==> handlers[spec.order[k]].state == Finished(spec, sections, spec.order[k])
  }

  /** FINISH: each with the messages that were relayed to it, and no others. */
  method FinishAll(spec: Spec, sections: map<SubprotocolId, SubState>, manager: SubprotoManager)
    requires Loadable(spec, sections) && ProcessedUpTo(spec, sections, manager.handlers, manager.logs, |spec.order|)
    modifies manager`handlers
    ensures FinishedAll(spec, sections, manager.handlers)
  {
    ghost var buffered := manager.handlers;
    for i := 0 to |spec.order|
      invariant manager.handlers.Keys == buffered.Keys
      invariant forall k :: 0 <= k < i ==>
        manager.handlers[spec.order[k]].state == Finished(spec, sections, spec.order[k])
      invariant forall k :: i <= k < |spec.order| ==> manager.handlers[spec.order[k]] == buffered[spec.order[k]]
    {
      var id := spec.order[i];
      assert id in manager.handlers;
      var panic := manager.InvokeProcessMsgs(spec, id);
      forall k | 0 <= k < |spec.order| && k != i ensures spec.order[k] != id {
      }
    }
  }

  /**
   A block's stages run through exactly when every subprotocol is loaded once from
   its section and messages only loaded others. Then each ends with the messages
   relayed to it, all of them, once, in relay order and after all processing; the
   sections are the loaded ids in ascending order, and the logs those emitted.
   */
  method RunStages(spec: Spec, sections: map<SubprotocolId, SubState>)
      returns (r: Result<(seq<Section>, seq<Log>), Panic>)
    ensures r.Ok? <==> Loadable(spec, sections) && Polite(spec, sections)
    ensures r.Ok? ==>
      && (forall i, j :: 0 <= i < j < |r.value.0| ==> r.value.0[i].id < r.value.0[j].id)
      && |r.value.0| == |spec.order|
      && (forall i :: 0 <= i < |r.value.0| ==>
            r.value.0[i].id in spec.order && r.value.0[i].state == Finished(spec, sections, r.value.0[i].id))
      && r.value.1 == LogsOf(EffectsOf(spec, sections, |spec.order|))
  {
    var manager := new SubprotoManager();
    var panic := RunAll(spec, sections, manager);
    if panic.Some? {
      return Err(panic.value);
    }
    var exported, logs := manager.ExportSectionsAndLogs();
    FinishedSections(spec, sections, manager.handlers, exported);
    return Ok((exported, logs));
  }

  /** LOAD, PROCESS and FINISH on a new manager. */
  method RunAll(spec: Spec, sections: map<SubprotocolId, SubState>, manager: SubprotoManager)
      returns (panic: Option<Panic>)
    requires manager.handlers == map[] && manager.logs == []
    modifies manager
    ensures panic.None? <==> Loadable(spec, sections) && Polite(spec, sections)
    ensures panic.None? ==>
      FinishedAll(spec, sections, manager.handlers) && manager.logs == LogsOf(EffectsOf(spec, sections, |spec.order|))
  {
    panic := Load(spec, sections, manager);
    if panic.None? {
      PoliteIff(spec, sections);
      panic := ProcessFrom(spec, sections, manager, 0);
      if panic.None? {
        FinishAll(spec, sections, manager);
      }
    }
  }

  lemma {:induction false} FinishedSections(spec: Spec, sections: map<SubprotocolId, SubState>,
      handlers: map<SubprotocolId, Handler>,
      exported: seq<Section>)
    requires Loadable(spec, sections) && FinishedAll(spec, sections, handlers)
    requires Exports(handlers, exported) && |exported| == |handlers.Keys|
    ensures |exported| == |spec.order|
    ensures forall i :: 0 <= i < |exported| ==>
      exported[i].id in spec.order && exported[i].state == Finished(spec, sections, exported[i].id)
  {
    OrderSize(spec.order, handlers.Keys, |spec.order|);
    forall i | 0 <= i < |exported|
      ensures exported[i].id in spec.order && exported[i].state == Finished(spec, sections, exported[i].id)
    {
      assert exported[i].id in handlers.Keys;
    }
  }

  lemma {:induction false} OrderSize(order: seq<SubprotocolId>, ids: set<SubprotocolId>, n: nat)
    requires n <= |order| && ids == (set k | 0 <= k < n :: order[k])
    requires forall i, j :: 0 <= i < j < |order| ==> order[i] != order[j]
    ensures |ids| == n
  {
    if n == 0 {
      assert ids == {};
    } else {
      assert ids == (set k | 0 <= k < n - 1 :: order[k]) + {order[n - 1]};
      OrderSize(order, ids - {order[n - 1]}, n - 1);
    }
  }
}
