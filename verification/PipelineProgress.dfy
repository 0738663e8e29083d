/** That the Syncer goes on, over every run of the pipeline. */
module PipelineProgress {
  import opened Types
  import opened Ranges
  import Sync = SyncTable
  import opened SyncerSpec
  import opened SyncerProofs
  import opened SyncerBootstrap
  import opened SyncerProgress
  import opened PipelineSpec
  import opened Pipeline
  import Cones = SolidifierCones

  /** After the bootstrap the window of requests is full; and a Syncer that was told what to work on is idle only when it has
      noted the end, scheduled a reading of the table, and nothing is missing below the highest milestone. */
  ghost predicate GoesOnWell(c: Config, s: State) {
    s.highest != 0 ==> WindowFull(c, s) && (Told(s) ==> Ended(s))
  }

  lemma ReplyGoesOn(tangle: Cones.Tangle, c: Config, sys: System, k: nat, p: Past)
    requires Inv(tangle, c, sys, p) && GoesOnWell(c, sys.syncer)
    requires k < |sys.toSyncer| && (sys.toSyncer[k].Unreachable? ==> sys.syncer.highest != 0)
    ensures AcceptsReply(sys.syncer) && GoesOnWell(c, HandleReply(c, sys.syncer, sys.toSyncer[k]))
  {
    ReplyTakenOut(sys, k);
    SolsHaveProperFirsts(tangle, sys);
    BalancedGoesOn(c, sys.syncer, BooksOf(sys), sys.toSyncer[k], p);
  }

  lemma BalancedGoesOn(c: Config, s: State, b: Books, r: Reply, p: Past)
    requires Balanced(c, s, b, p) && Acceptable(s, b, r) && ProperFirsts(b) && GoesOnWell(c, s)
    ensures AcceptsReply(s) && GoesOnWell(c, HandleReply(c, s, r))
  {
    if s.highest != 0 {
      ReplyProgresses(c, s, b.out, r, p.log);
    } else if s.pending == 1 {
      LastFirst(s, b, r);
      var t := BootTakesUp(c, s, r.data);
      BootKeepsTold(c, s, r.data);
    } else {
      assert |b.out| > 0;
      ArrivalKeepsBooting(c, s, r.data);
    }
  }

  /** What the Syncer was told stays. */
  lemma BootKeepsTold(c: Config, s: State, d: MilestoneData)
    requires c.parallelism > 0
    requires Booting(s) && s.pending == 1 && d.createdBy.Syncer?
    requires Strict(Push(s.heap, d)) && Push(s.heap, d)[0].index > 0
    ensures AcceptsReply(s) && (!Told(s) ==> !Told(HandleMilestoneData(c, s, d)))
  {
    var t := BootTakesUp(c, s, d);
    LastArrival(c, s, d);
    if !Told(s) {
      var v := BootState(c, s.(pending := 0, heap := Push(s.heap, d)));
      assert TriggerProcessMore(c, v) == Schedule(v.(eof := true));
    }
  }

  lemma AskGoesOn(tangle: Cones.Tangle, c: Config, sys: System, ask: Ask, fetched: Option<Sync.Snapshot>, p: Past)
    requires Inv(tangle, c, sys, p) && GoesOnWell(c, sys.syncer) && (fetched.Some? ==> Sync.Tidy(fetched.value))
    ensures GoesOnWell(c, HandleAsk(c, sys.syncer, ask, fetched))
  {
    if sys.syncer.highest != 0 {
      AskProgresses(c, sys.syncer, BooksOf(sys).out, ask, fetched);
    } else {
      AskKeepsBooting(c, sys.syncer, ask, fetched);
    }
  }

  /** What an action does to the Syncer. */
  lemma ActAtSyncer(tangle: Cones.Tangle, c: Config, sys: System, a: PipelineSpec.Action)
    requires Wired(sys)
    ensures Act(tangle, c, sys, a).Some? ==>
      var t := Act(tangle, c, sys, a).value.syncer;
      if !Enabled(tangle, sys, a) then t == sys.syncer
      else
        match a
        case DeliverReply(k) => AcceptsReply(sys.syncer) && t == HandleReply(c, sys.syncer, sys.toSyncer[k])
        case AskSyncer(ask, fetched) => t == HandleAsk(c, sys.syncer, ask, fetched)
        case _ => t == sys.syncer
  {
  }

  lemma ActGoesOn(tangle: Cones.Tangle, c: Config, sys: System, a: PipelineSpec.Action, p: Past)
    requires Inv(tangle, c, sys, p) && GoesOnWell(c, sys.syncer) && Wired(sys)
    ensures Act(tangle, c, sys, a).Some? ==> GoesOnWell(c, Act(tangle, c, sys, a).value.syncer)
  {
    ActAtSyncer(tangle, c, sys, a);
    if Enabled(tangle, sys, a) {
      match a
      case DeliverReply(k) => ReplyGoesOn(tangle, c, sys, k, p);
      case AskSyncer(ask, fetched) => AskGoesOn(tangle, c, sys, ask, fetched, p);
      case _ =>
    }
  }

  lemma {:induction false} RunGoesOnWell(tangle: Cones.Tangle, c: Config, sys: System, actions: seq<PipelineSpec.Action>, p: Past)
    returns (q: Past)
    requires Inv(tangle, c, sys, p) && GoesOnWell(c, sys.syncer)
    ensures var end := RunOf(tangle, c, sys, actions); end.Some? && Inv(tangle, c, end.value, q) && GoesOnWell(c, end.value.syncer)
    decreases |actions|
  {
    q := p;
    if actions != [] {
      InvIsWired(tangle, sys);
      ActGoesOn(tangle, c, sys, actions[0], p);
      q := ActKeepsInv(tangle, c, sys, actions[0], p);
      RunGoesOn(tangle, c, sys, actions);
      q := RunGoesOnWell(tangle, c, Act(tangle, c, sys, actions[0]).value, actions[1..], q);
    }
  }

  /** Main result: after any run, once the bootstrap is over, a Syncer with a gap in progress has outstanding requests, as
      many as the parallelism and the gap allow unless it skips the gap; and a Syncer that was told what to work on and has
      no gap in progress noted the end, scheduled a reading of the table, and has nothing missing left in its table below
      the highest milestone. */
  lemma NeverIdlesWithWork(tangle: Cones.Tangle, c: Config, snapshot: Sync.Snapshot, firstAsk: Option<Ask>, count: nat,
                           gapStart: nat, actions: seq<PipelineSpec.Action>) returns (sys: System)
    requires c.parallelism > 0 && Sync.Tidy(snapshot) && count > 0 && gapStart >= 1
    ensures RunOf(tangle, c, Begin(c, snapshot, firstAsk, count, gapStart), actions) == Some(sys)
    ensures var s := sys.syncer;
            s.highest != 0 ==>
              if s.active.Some?
              then 0 < s.pending <= c.parallelism
                   && (s.skip || s.pending == c.parallelism || s.active.value.range.start >= s.active.value.range.end)
              else Told(s) ==> s.eof && s.sent.scheduled > 0 && forall y: nat :: Covers(s.syncData.gaps, y) ==> s.highest <= y
  {
    var p := Past(Log([], [], [], [], 0), []);
    BeginHasInv(tangle, c, snapshot, firstAsk, count, gapStart, p);
    p := RunGoesOnWell(tangle, c, Begin(c, snapshot, firstAsk, count, gapStart), actions, p);
    sys := RunOf(tangle, c, Begin(c, snapshot, firstAsk, count, gapStart), actions).value;
  }
}
