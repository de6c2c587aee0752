/**
 A submission whose chain folds runs to completion when, up to the block it starts
 on, the leaves are right for every block of it.
 */
module WorkerProgress {
  import opened Wrappers
  import opened Sync
  import opened AuxData
  import opened Mountains
  import opened Worker
  import opened WorkerSafety
  import opened WorkerMmr

  // ---- Progress ------------------------------------------------------------------------

  ghost predicate Working(p: Phase) {
    (p.Syncing? || p.Applying?) && p.todo != []
  }

  /** Steps left, counting generously. */
  function Remaining(p: Phase): nat {
    match p
    case Syncing(_, todo) => 7 * |todo| + 6
    case Applying(_, todo, _, stage) =>
      7 * |todo| + (match stage
                    case NothingWritten => 5
                    case ManifestWritten => 4
                    case LeafWritten => 3
                    case AuxWritten => 2
                    case AnchorWritten => 1)
    case _ => 0
  }

  function NextEvent(p: Phase): Event {
    if p.Syncing? then Execute
    else if p.Applying? && p.stage.AnchorWritten? then Accept
    else Write
  }

  /** If the last block of a path folds, so does every block on it. */
  lemma {:induction false} PathFolds(cfg: Config, anchors: map<Commitment, Anchor>, base: Commitment,
      todo: seq<Commitment>, i: nat)
    requires ValidConfig(cfg) && TodoInv(cfg, anchors, base, todo) && i < |todo|
    requires base.height >= GenesisHeight(cfg) && Fold(cfg, Last(todo)).Some?
    ensures Fold(cfg, todo[i]).Some?
    decreases |todo| - i
  {
    if i < |todo| - 1 {
      PathFolds(cfg, anchors, base, todo, i + 1);
      FoldLink(cfg, todo[i + 1]);
    }
  }

  function Last(todo: seq<Commitment>): Commitment
    requires todo != []
  {
    todo[|todo| - 1]
  }

  /** Leaves are only added, or changed at heights above `low` and up to `high`. */
  ghost predicate LeavesKept(mmr: seq<Hash>, mmr': seq<Hash>, low: nat, high: nat) {
    |mmr| <= |mmr'| && forall i :: 0 <= i < |mmr| && (i <= low || i > high) ==> mmr'[i] == mmr[i]
  }

  /**
   A step that loses no anchor, adds none but a block of the sync, touches only the
   leaves of its heights, and either ends it or brings the end nearer.
   */
  ghost predicate Advances(s: Sys, s': Sys)
    requires Working(s.phase)
  {
    && (forall c :: c in s.store.anchors ==> c in s'.store.anchors)
    && (forall c :: c in s'.store.anchors ==> c in s.store.anchors || c in s.phase.todo)
    && LeavesKept(s.store.mmr, s'.store.mmr, s.phase.mem.tip.height, Last(s.phase.todo).height)
    && if s'.phase.Idle? then s'.phase.mem.tip == Last(s.phase.todo) == s'.lastLeaf
       else
         && Working(s'.phase) && Remaining(s'.phase) < Remaining(s.phase)
         && Last(s'.phase.todo) == Last(s.phase.todo) && s'.phase.mem.tip.height >= s.phase.mem.tip.height
         && forall c :: c in s'.phase.todo ==> c in s.phase.todo
  }

  lemma {:induction false} ExecuteAdvances(cfg: Config, s: Sys)
    requires s.phase.Syncing? && s.phase.todo != []
    requires Transition(cfg, s.store.mmr, s.phase.mem.next, s.phase.mem.anchor, s.phase.todo[0].blkid).Ok?
    ensures Next(cfg, s, Execute).Some? && Advances(s, Next(cfg, s, Execute).value)
  {
  }

  lemma {:induction false} WriteAdvances(cfg: Config, s: Sys)
    requires s.phase.Applying? && s.phase.todo != [] && !s.phase.stage.AnchorWritten?
    requires var m := s.phase.run.output.manifest;
      && PutLeaf(cfg, s.store.mmr, m.height, cfg.hash(m)).Some?
      && s.phase.mem.tip.height < m.height <= Last(s.phase.todo).height
    requires s.phase.run.output.state.block == s.phase.todo[0]
    ensures Next(cfg, s, Write).Some? && Advances(s, Next(cfg, s, Write).value)
  {
    var s' := NextWrite(cfg, s).value;
    assert s'.phase.todo == s.phase.todo;
  }

  lemma {:induction false} AcceptAdvances(cfg: Config, s: Sys)
    requires s.phase.Applying? && s.phase.todo != [] && s.phase.stage.AnchorWritten?
    requires s.lastLeaf == s.phase.todo[0] && s.phase.todo[0].height >= s.phase.mem.tip.height
    ensures Next(cfg, s, Accept).Some? && Advances(s, Next(cfg, s, Accept).value)
  {
    var todo := s.phase.todo;
    assert todo[1..] != [] ==> Last(todo[1..]) == Last(todo);
    assert todo[1..] == [] ==> Last(todo) == todo[0];
  }

  /** The worker's next step is possible, if the store serves the block, and brings the end nearer. */
  lemma {:induction false} WorkAdvances(cfg: Config, s: Sys)
    requires ValidConfig(cfg) && Inv(cfg, s) && Working(s.phase) && Fold(cfg, Last(s.phase.todo)).Some?
    requires s.phase.Syncing? ==> StoreServes(cfg, s.store, s.phase.mem, s.phase.todo[0])
    ensures Next(cfg, s, NextEvent(s.phase)).Some?
    ensures Advances(s, Next(cfg, s, NextEvent(s.phase)).value)
  {
    if s.phase.Syncing? {
      NextBlockExecutes(cfg, s);
      ExecuteAdvances(cfg, s);
    } else if s.phase.stage.AnchorWritten? {
      AcceptAdvances(cfg, s);
    } else {
      LeafNeverRejected(cfg, s);
      FoldShape(cfg, s.phase.todo[0]);
      WriteAdvances(cfg, s);
    }
  }

  lemma {:induction false} NextBlockFolds(cfg: Config, s: Sys)
    requires ValidConfig(cfg) && Inv(cfg, s) && s.phase.Syncing? && Fold(cfg, Last(s.phase.todo)).Some?
    ensures Fold(cfg, s.phase.todo[0]).Some?
  {
    FoldShape(cfg, s.phase.mem.tip);
    PathFolds(cfg, s.store.anchors, s.phase.mem.tip, s.phase.todo, 0);
  }

  lemma {:induction false} NextBlockExecutes(cfg: Config, s: Sys)
    requires ValidConfig(cfg) && Inv(cfg, s) && s.phase.Syncing? && Fold(cfg, Last(s.phase.todo)).Some?
    requires StoreServes(cfg, s.store, s.phase.mem, s.phase.todo[0])
    ensures Transition(cfg, s.store.mmr, s.phase.mem.next, s.phase.mem.anchor, s.phase.todo[0].blkid).Ok?
  {
    NextBlockFolds(cfg, s);
    ExecuteIff(cfg, s.store, s.phase.mem, s.phase.todo[0]);
  }

  // ---- What the leaves must be ---------------------------------------------------------------

  /** In every mountain that `c` asks into, the leaves at or below `low` are those of its own chain. */
  ghost predicate RightUpTo(cfg: Config, mmr: seq<Hash>, low: nat, c: Commitment) {
    && ParentOf(cfg, c).Ok? && Fold(cfg, ParentOf(cfg, c).value).Some?
    && var f := Fold(cfg, ParentOf(cfg, c).value).value;
       ServesUpTo(mmr, f.anchor.acc, low, Requests(cfg, f.next, f.anchor, c.blkid))
  }

  lemma {:induction false} ChildIsFound(cfg: Config, mmr: seq<Hash>, c: Commitment, parent: Commitment)
    requires ValidConfig(cfg) && Fold(cfg, c).Some? && ParentOf(cfg, c) == Ok(parent) && Fold(cfg, parent).Some?
    requires c.height > GenesisHeight(cfg) && |Fold(cfg, parent).value.anchor.acc| <= |mmr|
    ensures var f := Fold(cfg, parent).value;
      Found(View(cfg, mmr), |f.anchor.acc|, Requests(cfg, f.next, f.anchor, c.blkid))
  {
    var f := Fold(cfg, parent).value;
    assert Fold(cfg, c) == FoldStep(cfg, f, c);
    FoundElsewhere(View(cfg, mmr), View(cfg, f.anchor.acc), f.anchor.acc, Requests(cfg, f.next, f.anchor, c.blkid));
  }

  /** The leaves serve a block that folds exactly when they are right for it up to its parent. */
  lemma {:induction false} ServedIffRight(cfg: Config, mmr: seq<Hash>, c: Commitment, parent: Commitment)
    requires ValidConfig(cfg) && Fold(cfg, c).Some? && ParentOf(cfg, c) == Ok(parent) && Fold(cfg, parent).Some?
    requires c.height > GenesisHeight(cfg) && parent.height < |mmr|
    ensures ServesChild(cfg, mmr, c, parent) <==> RightUpTo(cfg, mmr, parent.height, c)
  {
    FoldShape(cfg, parent);
    ChildIsFound(cfg, mmr, c, parent);
    var f := Fold(cfg, parent).value;
    ServesIffUpTo(View(cfg, mmr), f.anchor.acc, parent.height, Requests(cfg, f.next, f.anchor, c.blkid));
  }

  /** Leaves above `low` do not matter. */
  lemma {:induction false} RightKept(cfg: Config, mmr: seq<Hash>, mmr': seq<Hash>, low: nat, c: Commitment)
    requires RightUpTo(cfg, mmr, low, c)
    requires |mmr| <= |mmr'| && forall i :: 0 <= i < |mmr| && i <= low ==> mmr'[i] == mmr[i]
    ensures RightUpTo(cfg, mmr', low, c)
  {
    var f := Fold(cfg, ParentOf(cfg, c).value).value;
    ServesUpToKept(mmr, mmr', f.anchor.acc, low, Requests(cfg, f.next, f.anchor, c.blkid));
  }

  ghost predicate HasLeaf(cfg: Config, c: Commitment, h: nat, leaf: Hash) {
    Fold(cfg, c).Some? && h < |Fold(cfg, c).value.anchor.acc| && Fold(cfg, c).value.anchor.acc[h] == leaf
  }

  /** One more leaf is right once it is that of the block's own chain. */
  lemma {:induction false} RightGrows(cfg: Config, mmr: seq<Hash>, low: nat, c: Commitment)
    requires RightUpTo(cfg, mmr, low, c) && low + 1 < |mmr|
    requires HasLeaf(cfg, ParentOf(cfg, c).value, low + 1, mmr[low + 1])
    ensures RightUpTo(cfg, mmr, low + 1, c)
  {
    var f := Fold(cfg, ParentOf(cfg, c).value).value;
    ServesUpToGrows(mmr, f.anchor.acc, low, Requests(cfg, f.next, f.anchor, c.blkid));
  }

  lemma {:induction false} OwnLeaf(cfg: Config, c: Commitment)
    requires ValidConfig(cfg) && Fold(cfg, c).Some? && Fold(cfg, c).value.record.Some?
    ensures c.height > GenesisHeight(cfg)
    ensures HasLeaf(cfg, c, c.height, cfg.hash(Fold(cfg, c).value.record.value.manifest))
  {
    FoldShape(cfg, c);
    AccumulatorIsAncestry(cfg, c, c.height);
  }

  /** The leaf of the block being applied has been written. */
  predicate LeafDone(p: Phase) {
    p.Applying? && (p.stage.LeafWritten? || p.stage.AuxWritten? || p.stage.AnchorWritten?)
  }

  ghost predicate PathRight(cfg: Config, mmr: seq<Hash>, low: nat, todo: seq<Commitment>) {
    forall c :: c in todo ==> RightUpTo(cfg, mmr, low, c)
  }

  /** The leaves are right, up to the tip, for all that is left of the sync. */
  ghost predicate Supported(cfg: Config, s: Sys)
    requires Working(s.phase)
  {
    && PathRight(cfg, s.store.mmr, s.phase.mem.tip.height, s.phase.todo)
    && (LeafDone(s.phase) ==>
          && s.phase.todo[0].height < |s.store.mmr|
          && s.store.mmr[s.phase.todo[0].height] == cfg.hash(s.phase.run.output.manifest))
  }

  lemma {:induction false} SupportedServes(cfg: Config, s: Sys)
    requires ValidConfig(cfg) && Inv(cfg, s) && s.phase.Syncing? && Working(s.phase) && Supported(cfg, s)
    requires Fold(cfg, s.phase.todo[0]).Some?
    ensures StoreServes(cfg, s.store, s.phase.mem, s.phase.todo[0])
  {
    var mem, c := s.phase.mem, s.phase.todo[0];
    assert c in s.phase.todo;
    ServedIffRight(cfg, s.store.mmr, c, mem.tip);
  }

  /** What the invariant says of the block being applied and of those after it. */
  ghost predicate Underway(cfg: Config, s: Sys) {
    s.phase.Applying? ==>
      && s.phase.todo != [] && s.phase.todo[0].height == s.phase.mem.tip.height + 1 > GenesisHeight(cfg)
      && RunInv(cfg, s.phase.todo[0], s.phase.run)
      && (s.phase.stage.AnchorWritten? ==> TodoInv(cfg, s.store.anchors, s.phase.todo[0], s.phase.todo[1..]))
  }

  lemma {:induction false} InvIsUnderway(cfg: Config, s: Sys)
    requires ValidConfig(cfg) && Inv(cfg, s)
    ensures Underway(cfg, s)
  {
    if s.phase.Applying? {
      FoldShape(cfg, s.phase.mem.tip);
    }
  }

  /** Every step of a sync leaves it as well supported as it was. */
  lemma {:induction false} StepKeepsSupport(cfg: Config, s: Sys, s': Sys)
    requires ValidConfig(cfg) && Underway(cfg, s) && Working(s.phase) && Supported(cfg, s)
    requires Next(cfg, s, NextEvent(s.phase)) == Some(s') && Working(s'.phase)
    ensures Supported(cfg, s')
  {
    if s.phase.Syncing? {
      ExecuteKeepsSupport(cfg, s, s');
    } else if s.phase.stage.AnchorWritten? {
      assert s' == AfterAccept(s) && s.phase.todo[1..] != [];
      AcceptKeepsSupport(cfg, s);
    } else {
      assert NextWrite(cfg, s) == Some(s');
      WriteKeepsSupport(cfg, s, s');
    }
  }

  lemma {:induction false} ExecuteKeepsSupport(cfg: Config, s: Sys, s': Sys)
    requires s.phase.Syncing? && Working(s.phase) && Supported(cfg, s) && Next(cfg, s, Execute) == Some(s')
    ensures Supported(cfg, s')
  {
    assert s'.store == s.store && s'.phase.mem == s.phase.mem && s'.phase.todo == s.phase.todo;
  }

  lemma {:induction false} WriteKeepsSupport(cfg: Config, s: Sys, s': Sys)
    requires ValidConfig(cfg) && Underway(cfg, s) && s.phase.Applying? && Supported(cfg, s)
    requires NextWrite(cfg, s) == Some(s')
    ensures Supported(cfg, s')
  {
    if s.phase.stage.ManifestWritten? {
      var tip := s.phase.mem.tip;
      FoldShape(cfg, s.phase.todo[0]);
      forall c | c in s'.phase.todo ensures RightUpTo(cfg, s'.store.mmr, tip.height, c) {
        RightKept(cfg, s.store.mmr, s'.store.mmr, tip.height, c);
      }
    }
  }

  lemma {:induction false} AcceptKeepsSupport(cfg: Config, s: Sys)
    requires ValidConfig(cfg) && Underway(cfg, s) && s.phase.Applying? && s.phase.stage.AnchorWritten?
    requires Supported(cfg, s) && s.phase.todo[1..] != []
    ensures Supported(cfg, AfterAccept(s))
  {
    var a, rest := s.phase.todo[0], s.phase.todo[1..];
    FoldShape(cfg, a);
    OwnLeaf(cfg, a);
    assert PathRight(cfg, s.store.mmr, a.height - 1, rest);
    PathRightGrows(cfg, s.store.anchors, s.store.mmr, a, rest);
  }

  /** With the leaf of a block in place, the leaves are right up to it for the path above it. */
  lemma {:induction false} PathRightGrows(cfg: Config, anchors: map<Commitment, Anchor>, mmr: seq<Hash>, a: Commitment,
      rest: seq<Commitment>)
    requires ValidConfig(cfg) && 0 < a.height < |mmr| && TodoInv(cfg, anchors, a, rest)
    requires HasLeaf(cfg, a, a.height, mmr[a.height]) && PathRight(cfg, mmr, a.height - 1, rest)
    ensures PathRight(cfg, mmr, a.height, rest)
  {
    forall i | 0 <= i < |rest| ensures RightUpTo(cfg, mmr, a.height, rest[i]) {
      assert rest[i] in rest && RightUpTo(cfg, mmr, a.height - 1, rest[i]);
      LeafBelowPath(cfg, anchors, a, rest, i, mmr[a.height]);
      RightGrows(cfg, mmr, a.height - 1, rest[i]);
    }
  }

  lemma {:induction false} LeafBelowPath(cfg: Config, anchors: map<Commitment, Anchor>, a: Commitment,
      rest: seq<Commitment>, i: nat,
      leaf: Hash)
    requires ValidConfig(cfg) && TodoInv(cfg, anchors, a, rest) && i < |rest| && HasLeaf(cfg, a, a.height, leaf)
    requires ParentOf(cfg, rest[i]).Ok? && Fold(cfg, ParentOf(cfg, rest[i]).value).Some?
    ensures HasLeaf(cfg, ParentOf(cfg, rest[i]).value, a.height, leaf)
  {
    BelowPath(cfg, anchors, a, rest, i);
    SharedLeaves(cfg, a, ParentOf(cfg, rest[i]).value);
  }

  /** The base of a path is an ancestor of the parent of each of its blocks. */
  lemma {:induction false} BelowPath(cfg: Config, anchors: map<Commitment, Anchor>, base: Commitment,
      todo: seq<Commitment>, i: nat)
    requires TodoInv(cfg, anchors, base, todo) && i < |todo|
    ensures ParentOf(cfg, todo[i]).Ok? && AncestorOrSelf(cfg, base, ParentOf(cfg, todo[i]).value)
  {
    if i > 0 {
      BelowPath(cfg, anchors, base, todo, i - 1);
      assert ParentOf(cfg, todo[i]) == Ok(todo[i - 1]);
    }
  }

  /** The leaves above `low` and up to the height of `c` are those of its chain. */
  ghost predicate LeavesFrom(cfg: Config, mmr: seq<Hash>, low: nat, c: Commitment) {
    && Fold(cfg, c).Some? && c.height < |mmr| && |Fold(cfg, c).value.anchor.acc| == c.height + 1
    && forall i :: low < i <= c.height ==> mmr[i] == Fold(cfg, c).value.anchor.acc[i]
  }

  /** Once accepted, a block's leaf is right for the end of the sync. */
  lemma {:induction false} AcceptedLeaf(cfg: Config, s: Sys)
    requires ValidConfig(cfg) && Underway(cfg, s) && s.phase.Applying? && s.phase.stage.AnchorWritten?
    requires Supported(cfg, s) && Fold(cfg, Last(s.phase.todo)).Some?
    ensures LeavesFrom(cfg, s.store.mmr, s.phase.mem.tip.height, s.phase.todo[0])
    ensures AncestorOrSelf(cfg, s.phase.todo[0], Last(s.phase.todo))
  {
    var a := s.phase.todo[0];
    FoldShape(cfg, a);
    AccumulatorIsAncestry(cfg, a, a.height);
    FirstIsAncestor(cfg, s.store.anchors, s.phase.todo);
  }

  lemma {:induction false} FirstIsAncestor(cfg: Config, anchors: map<Commitment, Anchor>, todo: seq<Commitment>)
    requires todo != [] && TodoInv(cfg, anchors, todo[0], todo[1..])
    ensures AncestorOrSelf(cfg, todo[0], Last(todo))
  {
    var rest := todo[1..];
    if rest != [] {
      assert Last(rest) == Last(todo);
      BelowPath(cfg, anchors, todo[0], rest, |rest| - 1);
      ChildAbove(cfg, todo[0], Last(rest));
    }
  }

  lemma {:induction false} ChildAbove(cfg: Config, a: Commitment, c: Commitment)
    requires ParentOf(cfg, c).Ok? && AncestorOrSelf(cfg, a, ParentOf(cfg, c).value)
    ensures AncestorOrSelf(cfg, a, c)
  {
    AncestorNotAbove(cfg, ParentOf(cfg, c).value, a.height);
  }

  lemma {:induction false} LeavesJoin(cfg: Config, mmr: seq<Hash>, mmr': seq<Hash>, low: nat, a: Commitment,
      c: Commitment)
    requires ValidConfig(cfg) && a.height == low + 1 && AncestorOrSelf(cfg, a, c)
    requires LeavesFrom(cfg, mmr, low, a) && LeavesFrom(cfg, mmr', a.height, c)
    requires LeavesKept(mmr, mmr', a.height, c.height)
    ensures LeavesFrom(cfg, mmr', low, c)
  {
    SharedLeaves(cfg, a, c);
  }

  /** The tip is still the same, or the next block, whose leaf is then right for the end of the sync. */
  ghost predicate TipMoves(cfg: Config, s: Sys, s': Sys)
    requires Working(s.phase)
  {
    && (s'.phase.Idle? || s'.phase.Syncing? || s'.phase.Applying?)
    && var tip, tip' := s.phase.mem.tip, s'.phase.mem.tip;
       if tip' == tip then !s'.phase.Idle?
       else
         && tip'.height == tip.height + 1
         && LeavesFrom(cfg, s'.store.mmr, tip.height, tip') && AncestorOrSelf(cfg, tip', Last(s.phase.todo))
  }

  lemma {:induction false} StepMovesTip(cfg: Config, s: Sys, s': Sys)
    requires ValidConfig(cfg) && Underway(cfg, s) && Working(s.phase) && Supported(cfg, s)
    requires Next(cfg, s, NextEvent(s.phase)) == Some(s') && Fold(cfg, Last(s.phase.todo)).Some?
    ensures TipMoves(cfg, s, s')
  {
    if s.phase.Applying? && s.phase.stage.AnchorWritten? {
      AcceptedLeaf(cfg, s);
      assert s' == AfterAccept(s);
    } else {
      TipStays(cfg, s, s');
    }
  }

  lemma {:induction false} TipStays(cfg: Config, s: Sys, s': Sys)
    requires Working(s.phase) && !(s.phase.Applying? && s.phase.stage.AnchorWritten?)
    requires Next(cfg, s, NextEvent(s.phase)) == Some(s')
    ensures s'.phase.Applying? && s'.phase.mem == s.phase.mem
  {
  }

  /**
   The sync is over: its last block is the tip, no anchor is lost and only blocks of
   the sync are added, and the leaves of its heights, and no others, have become
   those of its chain.
   */
  ghost predicate Completed(cfg: Config, s: Sys, s': Sys)
    requires Working(s.phase)
  {
    && s'.phase.Idle? && s'.phase.mem.tip == s'.lastLeaf == Last(s.phase.todo)
    && (forall c :: c in s.store.anchors ==> c in s'.store.anchors)
    && (forall c :: c in s'.store.anchors ==> c in s.store.anchors || c in s.phase.todo)
    && LeavesKept(s.store.mmr, s'.store.mmr, s.phase.mem.tip.height, Last(s.phase.todo).height)
    && LeavesFrom(cfg, s'.store.mmr, s.phase.mem.tip.height, Last(s.phase.todo))
  }

  lemma {:induction false} CompletedAfter(cfg: Config, s: Sys, s1: Sys, s': Sys)
    requires ValidConfig(cfg) && Working(s.phase) && Advances(s, s1) && TipMoves(cfg, s, s1)
    requires if s1.phase.Idle? then s' == s1 else Completed(cfg, s1, s')
    ensures Completed(cfg, s, s')
  {
    if !s1.phase.Idle? && s1.phase.mem.tip != s.phase.mem.tip {
      LeavesJoin(cfg, s1.store.mmr, s'.store.mmr, s.phase.mem.tip.height, s1.phase.mem.tip, Last(s.phase.todo));
    }
  }

  /** From the middle of a sync that the store supports, the blocks that are left can all be applied. */
  lemma {:induction false} SyncCompletes(cfg: Config, events: seq<Event>) returns (more: seq<Event>)
    requires ValidConfig(cfg) && Run(cfg, events).Some? && Working(Run(cfg, events).value.phase)
    requires Fold(cfg, Last(Run(cfg, events).value.phase.todo)).Some? && Supported(cfg, Run(cfg, events).value)
    ensures events <= more && Run(cfg, more).Some?
    ensures var s, s' := Run(cfg, events).value, Run(cfg, more).value;
      Completed(cfg, s, s') && (MmrInv(cfg, s) ==> MmrInv(cfg, s'))
    decreases Remaining(Run(cfg, events).value.phase)
  {
    var s := Run(cfg, events).value;
    NextStep(cfg, events);
    var next := RunSnoc(cfg, events, NextEvent(s.phase));
    var s1 := Run(cfg, next).value;
    more := next;
    if !s1.phase.Idle? {
      more := SyncCompletes(cfg, next);
    }
    CompletedAfter(cfg, s, s1, Run(cfg, more).value);
  }

  lemma {:induction false} NextStep(cfg: Config, events: seq<Event>)
    requires ValidConfig(cfg) && Run(cfg, events).Some? && Working(Run(cfg, events).value.phase)
    requires Fold(cfg, Last(Run(cfg, events).value.phase.todo)).Some? && Supported(cfg, Run(cfg, events).value)
    ensures var s := Run(cfg, events).value;
      var next := Next(cfg, s, NextEvent(s.phase));
      && next.Some? && Advances(s, next.value) && TipMoves(cfg, s, next.value)
      && (MmrInv(cfg, s) ==> MmrInv(cfg, next.value))
      && (!next.value.phase.Idle? ==> Supported(cfg, next.value))
  {
    var s := Run(cfg, events).value;
    RunKeepsInv(cfg, events);
    if s.phase.Syncing? {
      NextBlockFolds(cfg, s);
      SupportedServes(cfg, s);
    }
    WorkAdvances(cfg, s);
    var s' := Next(cfg, s, NextEvent(s.phase)).value;
    InvIsUnderway(cfg, s);
    StepMovesTip(cfg, s, s');
    if !s'.phase.Idle? {
      StepKeepsSupport(cfg, s, s');
    }
    if MmrInv(cfg, s) {
      InvIsReady(cfg, s);
      StepKeepsMmrInv(cfg, s, NextEvent(s.phase));
    }
  }

  /** A target whose chain folds always has a plan: the walk meets genesis at the latest. */
  lemma {:induction false} PlanSucceeds(cfg: Config, anchors: map<Commitment, Anchor>, cursor: Commitment,
      tip: Commitment)
    requires ValidConfig(cfg) && cfg.genesis.block in anchors && Fold(cfg, cursor).Some?
    ensures Walk(cursor, tip, GenesisHeight(cfg), BaseAt(anchors), Links(cfg)).Ok?
    decreases cursor.height
  {
    FoldShape(cfg, cursor);
    if cursor !in anchors {
      FoldLink(cfg, cursor);
      PlanSucceeds(cfg, anchors, ParentOf(cfg, cursor).value, tip);
    }
  }

  /** Submitting a block is accepted, and starts work exactly when it is not yet anchored. */
  lemma {:induction false} SubmitAccepted(cfg: Config, s: Sys, target: Commitment)
    requires ValidConfig(cfg) && Inv(cfg, s) && s.phase.Idle?
    requires cfg.heightOf(target.blkid) == Some(target.height) && Fold(cfg, target).Some?
    ensures PlanFor(cfg, s.store, s.phase.mem, target.blkid).Ok?
    ensures var p := PlanFor(cfg, s.store, s.phase.mem, target.blkid).value;
      && (target in s.store.anchors ==> p.None?)
      && (target !in s.store.anchors ==>
            && p.Some? && p.value.Syncing? && p.value.todo != []
            && Last(p.value.todo) == target
            && p.value.mem.tip == Plan(cfg, s.store.anchors, target).value.baseBlock)
  {
    FoldShape(cfg, target);
    PlanSucceeds(cfg, s.store.anchors, target, target);
    PlanIsPath(cfg, s.store.anchors, target);
    RecoverRefinesHistory(cfg, s.store, Plan(cfg, s.store.anchors, target).value.baseBlock);
  }

  /**
   The target's chain folds, and up to the nearest anchored ancestor the leaves are
   right for every block above it.
   */
  ghost predicate Clear(cfg: Config, st: Store, target: Commitment) {
    && Fold(cfg, target).Some? && Plan(cfg, st.anchors, target).Ok?
    && var plan := Plan(cfg, st.anchors, target).value;
       PathRight(cfg, st.mmr, plan.baseBlock.height, plan.pending)
  }

  /** So it is when the leaves are those of that ancestor. */
  lemma {:induction false} InStepIsClear(cfg: Config, st: Store, target: Commitment)
    requires ValidConfig(cfg) && StoreInv(cfg, st) && Fold(cfg, target).Some? && Plan(cfg, st.anchors, target).Ok?
    requires InStep(st.mmr, Plan(cfg, st.anchors, target).value.baseState.acc)
    ensures Clear(cfg, st, target)
  {
    PlanIsPath(cfg, st.anchors, target);
    var plan := Plan(cfg, st.anchors, target).value;
    forall c | c in plan.pending ensures RightUpTo(cfg, st.mmr, plan.baseBlock.height, c) {
      var k :| 0 <= k < |plan.pending| && plan.pending[k] == c;
      OnPath(cfg, st.anchors, target, k);
      InStepRight(cfg, st.mmr, plan.baseBlock, c);
    }
  }

  /** A pending block folds above the base, and below or at the target. */
  lemma {:induction false} OnPath(cfg: Config, anchors: map<Commitment, Anchor>, target: Commitment, k: nat)
    requires ValidConfig(cfg) && Fold(cfg, target).Some? && Plan(cfg, anchors, target).Ok?
    requires k < |Plan(cfg, anchors, target).value.pending|
    requires Fold(cfg, Plan(cfg, anchors, target).value.baseBlock).Some?
    ensures var plan := Plan(cfg, anchors, target).value;
      var c := plan.pending[k];
      && Fold(cfg, c).Some? && c.height > GenesisHeight(cfg) && c !in anchors && AncestorOrSelf(cfg, c, target)
      && ParentOf(cfg, c).Ok? && AncestorOrSelf(cfg, plan.baseBlock, ParentOf(cfg, c).value)
  {
    var plan := Plan(cfg, anchors, target).value;
    var todo := Reversed(plan.pending);
    assert TodoInv(cfg, anchors, plan.baseBlock, todo) && Last(todo) == target by {
      PlanIsPath(cfg, anchors, target);
    }
    var i := |todo| - 1 - k;
    assert todo[i] == plan.pending[k];
    InPath(cfg, anchors, plan.baseBlock, todo, i);
  }

  lemma {:induction false} InPath(cfg: Config, anchors: map<Commitment, Anchor>, base: Commitment,
      todo: seq<Commitment>, i: nat)
    requires ValidConfig(cfg) && TodoInv(cfg, anchors, base, todo) && i < |todo|
    requires Fold(cfg, base).Some? && Fold(cfg, Last(todo)).Some?
    ensures var c := todo[i];
      && Fold(cfg, c).Some? && c.height > GenesisHeight(cfg) && c !in anchors && AncestorOrSelf(cfg, c, Last(todo))
      && ParentOf(cfg, c).Ok? && AncestorOrSelf(cfg, base, ParentOf(cfg, c).value)
  {
    FoldShape(cfg, base);
    PathFolds(cfg, anchors, base, todo, i);
    BelowPath(cfg, anchors, base, todo, i);
    PathIsAncestry(cfg, anchors, base, todo, i);
  }

  lemma {:induction false} InStepRight(cfg: Config, mmr: seq<Hash>, base: Commitment, c: Commitment)
    requires ValidConfig(cfg) && Fold(cfg, c).Some? && Fold(cfg, base).Some? && c.height > GenesisHeight(cfg)
    requires InStep(mmr, Fold(cfg, base).value.anchor.acc)
    requires ParentOf(cfg, c).Ok? && AncestorOrSelf(cfg, base, ParentOf(cfg, c).value)
    ensures RightUpTo(cfg, mmr, base.height, c)
  {
    ChainBelow(cfg, base, c);
    var own := Fold(cfg, base).value.anchor.acc;
    forall k: nat | k <= base.height ensures k < |mmr| && mmr[k] == own[k] {
      assert mmr[k] == mmr[..|own|][k];
    }
  }

  /** Two chains share their leaves up to a common block, and a block asks only for what its parent's chain has. */
  lemma {:induction false} ChainBelow(cfg: Config, base: Commitment, c: Commitment)
    requires ValidConfig(cfg) && Fold(cfg, c).Some? && Fold(cfg, base).Some? && c.height > GenesisHeight(cfg)
    requires ParentOf(cfg, c).Ok? && AncestorOrSelf(cfg, base, ParentOf(cfg, c).value)
    ensures Fold(cfg, ParentOf(cfg, c).value).Some?
    ensures var f, own := Fold(cfg, ParentOf(cfg, c).value).value, Fold(cfg, base).value.anchor.acc;
      && |own| == base.height + 1 <= |f.anchor.acc| == c.height
      && (forall k: nat :: k <= base.height ==> own[k] == f.anchor.acc[k])
      && (forall h: nat :: Asked(Requests(cfg, f.next, f.anchor, c.blkid), h) ==> h < |f.anchor.acc|)
  {
    var parent := ParentOf(cfg, c).value;
    FoldLink(cfg, c);
    SharedLeaves(cfg, base, parent);
    AsksBelow(cfg, c, parent);
  }

  lemma {:induction false} SharedLeaves(cfg: Config, base: Commitment, c: Commitment)
    requires ValidConfig(cfg) && Fold(cfg, c).Some? && Fold(cfg, base).Some? && AncestorOrSelf(cfg, base, c)
    ensures var acc, own := Fold(cfg, c).value.anchor.acc, Fold(cfg, base).value.anchor.acc;
      |own| == base.height + 1 <= |acc| == c.height + 1 && forall k: nat :: k <= base.height ==> own[k] == acc[k]
  {
    FoldShape(cfg, base);
    AncestorNotAbove(cfg, c, base.height);
    AccumulatorIsAncestry(cfg, c, base.height);
  }

  lemma {:induction false} AsksBelow(cfg: Config, c: Commitment, parent: Commitment)
    requires ValidConfig(cfg) && Fold(cfg, c).Some? && c.height > GenesisHeight(cfg)
    requires ParentOf(cfg, c) == Ok(parent) && Fold(cfg, parent).Some?
    ensures var f := Fold(cfg, parent).value;
      forall h: nat :: Asked(Requests(cfg, f.next, f.anchor, c.blkid), h) ==> h < |f.anchor.acc|
  {
    ChildIsFound(cfg, Fold(cfg, parent).value.anchor.acc, c, parent);
  }

  /** So it is in agreement, when the sync starts on the branch of the last written leaf. */
  lemma {:induction false} LastBranchIsClear(cfg: Config, s: Sys, target: Commitment)
    requires ValidConfig(cfg) && Inv(cfg, s) && s.phase.Idle? && MmrInv(cfg, s)
    requires cfg.heightOf(target.blkid) == Some(target.height) && Fold(cfg, target).Some?
    requires target !in s.store.anchors && BaseOnLastBranch(cfg, s, Submit(target.blkid))
    ensures Clear(cfg, s.store, target)
  {
    SubmitAccepted(cfg, s, target);
    PlanSucceeds(cfg, s.store.anchors, target, target);
    PlanIsPath(cfg, s.store.anchors, target);
    AgreementInStep(cfg, s, Plan(cfg, s.store.anchors, target).value.baseBlock);
    InStepIsClear(cfg, s.store, target);
  }

  /** The block asks for no manifest hash on its own chain. */
  ghost predicate AsksNothing(cfg: Config, c: Commitment) {
    ParentOf(cfg, c).Ok? && Fold(cfg, ParentOf(cfg, c).value).Some? ==>
      var f := Fold(cfg, ParentOf(cfg, c).value).value;
      Requests(cfg, f.next, f.anchor, c.blkid) == []
  }

  /**
   From an idle state, submitting a block that is clear leads to its anchor: the tip
   becomes that block, nothing stored is lost, nothing but its ancestry is anchored,
   and only leaves above the base change.
   */
  lemma {:induction false} SubmitReachesTarget(cfg: Config, events: seq<Event>, target: Commitment)
      returns (more: seq<Event>)
    requires ValidConfig(cfg) && Run(cfg, events).Some? && Run(cfg, events).value.phase.Idle?
    requires cfg.heightOf(target.blkid) == Some(target.height)
    requires target !in Run(cfg, events).value.store.anchors && Clear(cfg, Run(cfg, events).value.store, target)
    ensures events <= more && Run(cfg, more).Some?
    ensures var s, s' := Run(cfg, events).value, Run(cfg, more).value;
      && s'.phase.Idle? && s'.phase.mem.tip == target && s'.lastLeaf == target
      && target in s'.store.anchors
      && (forall c :: c in s.store.anchors ==> c in s'.store.anchors)
      && (forall c :: c in s'.store.anchors ==> c in s.store.anchors || AncestorOrSelf(cfg, c, target))
      && Plan(cfg, s.store.anchors, target).Ok?
      && LeavesKept(s.store.mmr, s'.store.mmr, Plan(cfg, s.store.anchors, target).value.baseBlock.height, target.height)
      && LeavesFrom(cfg, s'.store.mmr, Plan(cfg, s.store.anchors, target).value.baseBlock.height, target)
      && (MmrInv(cfg, s) && BaseOnLastBranch(cfg, s, Submit(target.blkid)) ==> MmrInv(cfg, s'))
  {
    more := SubmitStarts(cfg, events, target);
    more := SyncCompletes(cfg, more);
    assert target in Run(cfg, more).value.store.anchors by {
      RunKeepsInv(cfg, more);
    }
  }

  /** The submission has put the path up to the target before the worker, and changed nothing else. */
  ghost predicate Started(cfg: Config, s: Sys, s': Sys, target: Commitment) {
    && s' == s.(phase := s'.phase) && s'.phase.Syncing? && s'.phase.todo != [] && Last(s'.phase.todo) == target
    && Plan(cfg, s.store.anchors, target).Ok?
    && s'.phase.mem.tip == Plan(cfg, s.store.anchors, target).value.baseBlock
    && s'.phase.todo == Reversed(Plan(cfg, s.store.anchors, target).value.pending)
    && forall c :: c in s'.phase.todo ==> AncestorOrSelf(cfg, c, target) && c !in s.store.anchors
  }

  lemma {:induction false} SubmitStep(cfg: Config, s: Sys, target: Commitment)
    requires ValidConfig(cfg) && Inv(cfg, s) && s.phase.Idle?
    requires cfg.heightOf(target.blkid) == Some(target.height) && Fold(cfg, target).Some?
    requires target !in s.store.anchors
    ensures Next(cfg, s, Submit(target.blkid)).Some?
    ensures Started(cfg, s, Next(cfg, s, Submit(target.blkid)).value, target)
  {
    SubmitAccepted(cfg, s, target);
    FoldShape(cfg, target);
    PlanIsPath(cfg, s.store.anchors, target);
    var p := PlanFor(cfg, s.store, s.phase.mem, target.blkid).value.value;
    PathAncestors(cfg, s.store.anchors, p.mem.tip, p.todo);
  }

  lemma {:induction false} PathRightReversed(cfg: Config, mmr: seq<Hash>, low: nat, pending: seq<Commitment>)
    requires PathRight(cfg, mmr, low, pending)
    ensures PathRight(cfg, mmr, low, Reversed(pending))
  {
    var todo := Reversed(pending);
    forall c | c in todo ensures c in pending {
      var i :| 0 <= i < |todo| && todo[i] == c;
      assert c == pending[|pending| - 1 - i];
    }
  }

  lemma {:induction false} SubmitKeepsSupport(cfg: Config, s: Sys, s': Sys, target: Commitment)
    requires ValidConfig(cfg) && s.phase.Idle? && Next(cfg, s, Submit(target.blkid)) == Some(s')
    requires Started(cfg, s, s', target) && Clear(cfg, s.store, target)
    ensures Supported(cfg, s')
    ensures MmrInv(cfg, s) && BaseOnLastBranch(cfg, s, Submit(target.blkid)) ==> MmrInv(cfg, s')
  {
    var plan := Plan(cfg, s.store.anchors, target).value;
    PathRightReversed(cfg, s.store.mmr, plan.baseBlock.height, plan.pending);
    if MmrInv(cfg, s) && BaseOnLastBranch(cfg, s, Submit(target.blkid)) {
      StepKeepsMmrInv(cfg, s, Submit(target.blkid));
    }
  }

  /** The submission's own step, and what it leaves to do. */
  lemma {:induction false} SubmitStarts(cfg: Config, events: seq<Event>, target: Commitment) returns (more: seq<Event>)
    requires ValidConfig(cfg) && Run(cfg, events).Some? && Run(cfg, events).value.phase.Idle?
    requires cfg.heightOf(target.blkid) == Some(target.height)
    requires target !in Run(cfg, events).value.store.anchors && Clear(cfg, Run(cfg, events).value.store, target)
    ensures more == events + [Submit(target.blkid)] && Run(cfg, more).Some?
    ensures var s, s' := Run(cfg, events).value, Run(cfg, more).value;
      && Started(cfg, s, s', target) && Supported(cfg, s')
      && (MmrInv(cfg, s) && BaseOnLastBranch(cfg, s, Submit(target.blkid)) ==> MmrInv(cfg, s'))
  {
    var s := Run(cfg, events).value;
    var next := Next(cfg, s, Submit(target.blkid));
    assert next.Some? && Started(cfg, s, next.value, target) by {
      RunKeepsInv(cfg, events);
      SubmitStep(cfg, s, target);
    }
    SubmitKeepsSupport(cfg, s, next.value, target);
    more := RunSnoc(cfg, events, Submit(target.blkid));
  }

  lemma {:induction false} PathAncestors(cfg: Config, anchors: map<Commitment, Anchor>, base: Commitment,
      todo: seq<Commitment>)
    requires TodoInv(cfg, anchors, base, todo) && todo != []
    ensures forall c :: c in todo ==> AncestorOrSelf(cfg, c, Last(todo)) && c !in anchors
  {
    forall c | c in todo ensures AncestorOrSelf(cfg, c, Last(todo)) && c !in anchors {
      var i :| 0 <= i < |todo| && todo[i] == c;
      PathIsAncestry(cfg, anchors, base, todo, i);
    }
  }

  lemma {:induction false} PathIsAncestry(cfg: Config, anchors: map<Commitment, Anchor>, base: Commitment,
      todo: seq<Commitment>, i: nat)
    requires TodoInv(cfg, anchors, base, todo) && i < |todo|
    ensures AncestorOrSelf(cfg, todo[i], Last(todo))
    decreases |todo|
  {
    var n := |todo| - 1;
    if i < n {
      PathIsAncestry(cfg, anchors, base, todo[..n], i);
    }
  }
}
