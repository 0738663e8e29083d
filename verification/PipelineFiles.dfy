/** The Syncer in front of the Archiver: what a run of the pipeline leaves in the log files. */
module PipelineFiles {
  import opened Types
  import opened Ranges
  import Sync = SyncTable
  import Sy = SyncerSpec
  import opened SyncerProofs
  import opened SyncerBootstrap
  import opened SyncerHandover
  import Requests = SyncerRequests
  import opened ArchiverSpec
  import opened ArchiverFiles
  import opened ArchiverProofs
  import opened PipelineSpec
  import opened Pipeline
  import Cones = SolidifierCones

  // ------------------------------------------------------------------------------------------------------------
  // At the Archiver
  // ------------------------------------------------------------------------------------------------------------

  /** How often exactly these data are among the events. */
  ghost function Lines(events: seq<ArchiverEvent>, d: MilestoneData): nat {
    if events == [] then 0
    else Lines(events[..|events| - 1], d) + One(events[|events| - 1].Data? && events[|events| - 1].data == d)
  }

  lemma LinesSnoc(events: seq<ArchiverEvent>, e: ArchiverEvent, d: MilestoneData)
    ensures Lines(events + [e], d) == Lines(events, d) + One(e.Data? && e.data == d)
  {
    assert (events + [e])[..|events|] == events;
  }

  /** Sent by the Syncer: all closes, and the data it asked for. */
  predicate OfSyncer(e: ArchiverEvent) {
    e.Close? || e.data.createdBy.Syncer?
  }

  /** New milestone data from a Solidifier. */
  predicate Incoming(e: ArchiverEvent) {
    e.Data? && !e.data.createdBy.Syncer? && e.upperLimit.None? && e.data.index < MAX_INDEX
  }

  /** The events in between those of the Syncer are new milestone data; the Syncer's come in the order sent. */
  ghost predicate Merges(events: seq<ArchiverEvent>, sent: seq<ArchiverEvent>)
    decreases |events|
  {
    if events == [] then sent == []
    else
      var n, e := |events| - 1, events[|events| - 1];
      if OfSyncer(e) then sent != [] && sent[|sent| - 1] == e && Merges(events[..n], sent[..|sent| - 1])
      else Incoming(e) && Merges(events[..n], sent)
  }

  /** Below `frontier` the files hold exactly what the Syncer sent: each index as often, and the very lines. */
  ghost predicate Holds(c: Config, s: State, sent: seq<ArchiverEvent>, frontier: nat, written: set<nat>) {
    && Good(c, s, written) && frontier <= s.next
    && (forall x: nat :: x < frontier ==> One(x in written) == Count(sent, x))
    && (forall d: MilestoneData :: d.index < frontier ==> Copies(s.files, d) == Lines(sent, d))
  }

  /** Data of the Syncer below the frontier, for the first time. */
  lemma SyncerDataHolds(c: Config, s: State, sent: seq<ArchiverEvent>, frontier: nat, written: set<nat>, e: ArchiverEvent)
    requires Holds(c, s, sent, frontier, written)
    requires e.Data? && Sendable(e, frontier) && Count(sent + [e], e.data.index) <= 1
    requires frontier <= MAX_INDEX
    ensures Step(c, s, e).Some? && Holds(c, Step(c, s, e).value, sent + [e], frontier, written + {e.data.index})
  {
    var d := e.data;
    CountSnoc(sent, e, d.index);
    WriteAndMoveKeeps(c, s, d, e.upperLimit, s.next, written);
    var t := Step(c, s, e).value;
    forall x: nat | x < frontier
      ensures One(x in written + {d.index}) == Count(sent + [e], x)
    {
      CountSnoc(sent, e, x);
    }
    forall y: MilestoneData | y.index < frontier
      ensures Copies(t.files, y) == Lines(sent + [e], y)
    {
      LinesSnoc(sent, e, y);
      assert Copies(t.files, y) == Copies(s.files, y) + multiset([d])[y];
    }
  }

  lemma CloseHolds(c: Config, s: State, sent: seq<ArchiverEvent>, frontier: nat, written: set<nat>, e: ArchiverEvent)
    requires Holds(c, s, sent, frontier, written) && e.Close?
    ensures Step(c, s, e).Some? && Holds(c, Step(c, s, e).value, sent + [e], frontier, written)
  {
    var t := Step(c, s, e).value;
    CloseKeepsGood(c, s, e.index, written);
    forall x: nat | x < frontier
      ensures One(x in written) == Count(sent + [e], x)
    {
      CountSnoc(sent, e, x);
    }
    forall y: MilestoneData | y.index < frontier
      ensures Copies(t.files, y) == Lines(sent + [e], y)
    {
      LinesSnoc(sent, e, y);
      CloseAdds(s.files, e.index, 0, y);
    }
  }

  lemma {:induction false} TurnsAreAbove(news: seq<MilestoneData>, left: seq<nat>, next: nat, solidifiers: nat, k: nat)
    requires InTurn(news, left, next, solidifiers) && k < |news|
    ensures news[k].index >= next
  {
    assert TurnAt(news, left, next, solidifiers, k);
    if k > 0 { TurnsAreAbove(news, left, next, solidifiers, k - 1); }
  }

  /** New data are written from the Archiver's frontier on. */
  lemma IncomingHolds(c: Config, s: State, sent: seq<ArchiverEvent>, frontier: nat, written: set<nat>, e: ArchiverEvent)
    returns (all: set<nat>)
    requires Holds(c, s, sent, frontier, written) && Incoming(e)
    ensures Step(c, s, e).Some? && Holds(c, Step(c, s, e).value, sent, frontier, all)
  {
    var u := s.(heap := Heap.Push(s.heap, e.data));
    BufferKeepsGood(c, s, e.data, written);
    var t, news, left := DrainWritesInTurn(c, u, written);
    all := written + IndexSet(news);
    forall k | 0 <= k < |news|
      ensures news[k].index >= frontier
    {
      TurnsAreAbove(news, left, u.next, c.solidifiers, k);
    }
    forall x: nat | x < frontier
      ensures One(x in all) == Count(sent, x)
    {
    }
    forall y: MilestoneData | y.index < frontier
      ensures Copies(t.files, y) == Lines(sent, y)
    {
      assert y !in news;
      assert Copies(t.files, y) == Copies(u.files, y) + multiset(news)[y];
    }
  }

  lemma {:induction false} RunSnoc(c: Config, s: State, events: seq<ArchiverEvent>, e: ArchiverEvent)
    ensures Run(c, s, events + [e]) == match Run(c, s, events) case None => None case Some(t) => Step(c, t, e)
    decreases |events|
  {
    if events == [] {
      assert [] + [e] == [e] && [e][1..] == [];
    } else {
      assert (events + [e])[1..] == events[1..] + [e];
      if Step(c, s, events[0]).Some? { RunSnoc(c, Step(c, s, events[0]).value, events[1..], e); }
    }
  }

  ghost predicate SentOnce(sent: seq<ArchiverEvent>, frontier: nat) {
    AllSendable(sent, frontier) && forall x: nat :: Count(sent, x) <= 1
  }

  lemma FewerAreOnce(sent: seq<ArchiverEvent>, frontier: nat)
    requires SentOnce(sent, frontier) && sent != []
    ensures SentOnce(sent[..|sent| - 1], frontier)
  {
    var fewer := sent[..|sent| - 1];
    forall x: nat
      ensures Count(fewer, x) <= 1
    {
      assert Count(fewer, x) <= Count(sent, x);
    }
  }

  lemma {:induction false} PrefixIsOnce(sent: seq<ArchiverEvent>, frontier: nat, n: nat)
    requires SentOnce(sent, frontier) && n <= |sent|
    ensures SentOnce(sent[..n], frontier)
    decreases |sent|
  {
    if n < |sent| {
      FewerAreOnce(sent, frontier);
      PrefixIsOnce(sent[..|sent| - 1], frontier, n);
      assert sent[..|sent| - 1][..n] == sent[..n];
    } else {
      assert sent[..n] == sent;
    }
  }

  lemma OpenedHolds(c: Config, frontier: nat)
    ensures Holds(c, Opened(frontier), [], frontier, {})
  {
    assert RangesOf([]) == [];
  }

  /** After the events the Archiver holds what the Syncer sent. */
  ghost predicate Reached(c: Config, frontier: nat, events: seq<ArchiverEvent>, sent: seq<ArchiverEvent>, written: set<nat>) {
    Run(c, Opened(frontier), events).Some? && Holds(c, Run(c, Opened(frontier), events).value, sent, frontier, written)
  }

  lemma SyncerEventReaches(c: Config, frontier: nat, events: seq<ArchiverEvent>, sent: seq<ArchiverEvent>, written: set<nat>,
                           e: ArchiverEvent) returns (all: set<nat>)
    requires Reached(c, frontier, events, sent, written)
    requires OfSyncer(e) && SentOnce(sent + [e], frontier) && frontier <= MAX_INDEX
    ensures Reached(c, frontier, events + [e], sent + [e], all)
  {
    RunSnoc(c, Opened(frontier), events, e);
    all := SyncerEventHolds(c, Run(c, Opened(frontier), events).value, sent, frontier, written, e);
  }

  lemma IncomingReaches(c: Config, frontier: nat, events: seq<ArchiverEvent>, sent: seq<ArchiverEvent>, written: set<nat>,
                        e: ArchiverEvent) returns (all: set<nat>)
    requires Reached(c, frontier, events, sent, written) && Incoming(e)
    ensures Reached(c, frontier, events + [e], sent, all)
  {
    RunSnoc(c, Opened(frontier), events, e);
    all := IncomingHolds(c, Run(c, Opened(frontier), events).value, sent, frontier, written, e);
  }

  /** Whatever new data arrive in between, the Archiver keeps what the Syncer sent. */
  lemma {:induction false} MergedHolds(c: Config, events: seq<ArchiverEvent>, sent: seq<ArchiverEvent>, frontier: nat)
    returns (written: set<nat>)
    requires Merges(events, sent) && SentOnce(sent, frontier) && frontier <= MAX_INDEX
    ensures Reached(c, frontier, events, sent, written)
    decreases |events|
  {
    if events == [] {
      OpenedHolds(c, frontier);
      written := {};
    } else {
      var n, e := |events| - 1, events[|events| - 1];
      assert events == events[..n] + [e];
      if OfSyncer(e) {
        FewerAreOnce(sent, frontier);
        assert sent == sent[..|sent| - 1] + [e];
        written := MergedHolds(c, events[..n], sent[..|sent| - 1], frontier);
        written := SyncerEventReaches(c, frontier, events[..n], sent[..|sent| - 1], written, e);
      } else {
        written := MergedHolds(c, events[..n], sent, frontier);
        written := IncomingReaches(c, frontier, events[..n], sent, written, e);
      }
    }
  }

  lemma SyncerEventHolds(c: Config, s: State, sent: seq<ArchiverEvent>, frontier: nat, written: set<nat>, e: ArchiverEvent)
    returns (all: set<nat>)
    requires Holds(c, s, sent, frontier, written) && OfSyncer(e) && SentOnce(sent + [e], frontier) && frontier <= MAX_INDEX
    ensures Step(c, s, e).Some? && Holds(c, Step(c, s, e).value, sent + [e], frontier, all)
  {
    assert (sent + [e])[|sent|] == e;
    if e.Close? {
      CloseHolds(c, s, sent, frontier, written, e);
      all := written;
    } else {
      SyncerDataHolds(c, s, sent, frontier, written, e);
      all := written + {e.data.index};
    }
  }

  // ------------------------------------------------------------------------------------------------------------
  // Every run of the pipeline
  // ------------------------------------------------------------------------------------------------------------

  /** When the Syncer starts on the sync table, or reads it again, the table fits what was handed over. */
  ghost predicate Truthful(c: Sy.Config, s: Sy.State, sys: System, a: PipelineSpec.Action) {
    match a
    case DeliverReply(k) =>
      k < |sys.toSyncer| && sys.toSyncer[k].Collected? && s.highest == 0 && s.pending == 1 ==>
        Agrees(Sy.SendFirst(c, LastIn(s, sys.toSyncer[k].data)), true)
    case AskSyncer(ask, fetched) =>
      Requests.Rereads(c, s, ask, fetched) ==> Agrees(s.(syncData := fetched.value, eof := false), true)
    case _ => true
  }

  ghost predicate TruthfulRun(tangle: Cones.Tangle, c: Sy.Config, sys: System, actions: seq<PipelineSpec.Action>)
    decreases |actions|
  {
    actions == [] ||
    (Wired(sys) ==>
      && Truthful(c, sys.syncer, sys, actions[0])
      && (Act(tangle, c, sys, actions[0]).Some? ==> TruthfulRun(tangle, c, Act(tangle, c, sys, actions[0]).value, actions[1..])))
  }

  ghost predicate HandsOnce(s: Sy.State) {
    s.highest != 0 ==> Once(s, true)
  }

  /** The state in which the bootstrap hands over the first milestones, with the last of them. */
  function LastIn(s: Sy.State, d: MilestoneData): Sy.State {
    s.(pending := 0, heap := Sy.Push(s.heap, d))
  }

  lemma BalancedHandsOnce(c: Sy.Config, s: Sy.State, b: Books, r: Reply, p: Past)
    requires Balanced(c, s, b, p) && Acceptable(s, b, r) && ProperFirsts(b) && HandsOnce(s)
    requires s.highest == 0 && s.pending == 1 ==> Agrees(Sy.SendFirst(c, LastIn(s, r.data)), true)
    ensures Sy.AcceptsReply(s) && HandsOnce(Sy.HandleReply(c, s, r))
  {
    if s.highest != 0 {
      ReplyKeepsOnce(c, s, b.out, r, p.log, true);
    } else if s.pending == 1 {
      LastFirst(s, b, r);
      BootEndOnce(c, s, r.data, true);
    } else {
      assert |b.out| > 0;
      ArrivalKeepsBooting(c, s, r.data);
    }
  }

  lemma ReplyHandsOnce(tangle: Cones.Tangle, c: Sy.Config, sys: System, k: nat, p: Past)
    requires Inv(tangle, c, sys, p) && HandsOnce(sys.syncer) && Truthful(c, sys.syncer, sys, DeliverReply(k))
    requires k < |sys.toSyncer| && (sys.toSyncer[k].Unreachable? ==> sys.syncer.highest != 0)
    ensures Sy.AcceptsReply(sys.syncer) && HandsOnce(Sy.HandleReply(c, sys.syncer, sys.toSyncer[k]))
  {
    ReplyTakenOut(sys, k);
    SolsHaveProperFirsts(tangle, sys);
    BalancedHandsOnce(c, sys.syncer, BooksOf(sys), sys.toSyncer[k], p);
  }

  lemma AskHandsOnce(tangle: Cones.Tangle, c: Sy.Config, sys: System, ask: Sy.Ask, fetched: Option<Sync.Snapshot>, p: Past)
    requires Inv(tangle, c, sys, p) && HandsOnce(sys.syncer) && Truthful(c, sys.syncer, sys, AskSyncer(ask, fetched))
    requires fetched.Some? ==> Sync.Tidy(fetched.value)
    ensures HandsOnce(Sy.HandleAsk(c, sys.syncer, ask, fetched))
  {
    if sys.syncer.highest != 0 {
      AskKeepsHandover(c, sys.syncer, ask, fetched, true);
    } else {
      AskKeepsBooting(c, sys.syncer, ask, fetched);
    }
  }

  lemma ActHandsOnce(tangle: Cones.Tangle, c: Sy.Config, sys: System, a: PipelineSpec.Action, p: Past)
    requires Inv(tangle, c, sys, p) && HandsOnce(sys.syncer) && Truthful(c, sys.syncer, sys, a)
    ensures Wired(sys)
    ensures Act(tangle, c, sys, a).Some? ==> HandsOnce(Act(tangle, c, sys, a).value.syncer)
  {
    InvIsWired(tangle, sys);
    if Enabled(tangle, sys, a) {
      match a
      case DeliverReply(k) => ReplyHandsOnce(tangle, c, sys, k, p);
      case AskSyncer(ask, fetched) => AskHandsOnce(tangle, c, sys, ask, fetched, p);
      case _ =>
    }
  }

  lemma {:induction false} RunHandsOnce(tangle: Cones.Tangle, c: Sy.Config, sys: System, actions: seq<PipelineSpec.Action>, p: Past)
    returns (q: Past)
    requires Inv(tangle, c, sys, p) && HandsOnce(sys.syncer) && TruthfulRun(tangle, c, sys, actions)
    ensures var end := RunOf(tangle, c, sys, actions); end.Some? && Inv(tangle, c, end.value, q) && HandsOnce(end.value.syncer)
    decreases |actions|
  {
    q := p;
    if actions != [] {
      InvIsWired(tangle, sys);
      ActHandsOnce(tangle, c, sys, actions[0], p);
      q := ActKeepsInv(tangle, c, sys, actions[0], p);
      RunGoesOn(tangle, c, sys, actions);
      q := RunHandsOnce(tangle, c, Act(tangle, c, sys, actions[0]).value, actions[1..], q);
    }
  }

  lemma FrontierIsLow(tangle: Cones.Tangle, c: Sy.Config, sys: System, p: Past)
    requires Inv(tangle, c, sys, p) && sys.syncer.highest != 0
    ensures sys.syncer.sent.frontier.Some? && sys.syncer.sent.frontier.value <= MAX_INDEX
  {
    SolsInClass(tangle, sys.sols);
    assert Sy.Indexes(p.firsts)[|p.firsts| - 1] in multiset(Sy.Indexes(p.firsts));
  }

  /** Main result: run the pipeline in any way in which the sync table fits what was handed over, and let the Archiver
      take what the Syncer sent so far, mixed with new milestone data in any way. The Archiver does not fail; its files
      tile what was written and hold their lines; and below the frontier they hold exactly the milestones the Syncer
      handed over, each of them once, line by line. */
  lemma FilesHoldWhatWasSent(tangle: Cones.Tangle, c: Sy.Config, snapshot: Sync.Snapshot, firstAsk: Option<Sy.Ask>, count: nat,
                             gapStart: nat, actions: seq<PipelineSpec.Action>, ac: Config, n: nat, events: seq<ArchiverEvent>)
    returns (sys: System, frontier: nat, written: set<nat>)
    requires c.parallelism > 0 && Sync.Tidy(snapshot) && count > 0 && gapStart >= 1
    requires TruthfulRun(tangle, c, Begin(c, snapshot, firstAsk, count, gapStart), actions)
    requires var end := RunOf(tangle, c, Begin(c, snapshot, firstAsk, count, gapStart), actions);
             end.Some? && end.value.syncer.highest != 0 ==>
               n <= |end.value.syncer.sent.archived| && Merges(events, end.value.syncer.sent.archived[..n])
    ensures RunOf(tangle, c, Begin(c, snapshot, firstAsk, count, gapStart), actions) == Some(sys)
    ensures sys.syncer.highest != 0 ==>
      var end := Run(ac, Opened(frontier), events);
      && sys.syncer.sent.frontier == Some(frontier) && end.Some?
      && Ordered(end.value.files) && Contents(ac, end.value.files) && Tiles(end.value.files, written)
      && (forall x: nat :: x < frontier ==> Cover(end.value.files, x) == Count(sys.syncer.sent.archived[..n], x) <= 1)
      && (forall d: MilestoneData :: d.index < frontier ==> Copies(end.value.files, d) == Lines(sys.syncer.sent.archived[..n], d))
  {
    var start := Begin(c, snapshot, firstAsk, count, gapStart);
    var p := Past(Log([], [], [], [], 0), []);
    BeginHasInv(tangle, c, snapshot, firstAsk, count, gapStart, p);
    p := RunHandsOnce(tangle, c, start, actions, p);
    sys := RunOf(tangle, c, start, actions).value;
    frontier, written := 0, {};
    if sys.syncer.highest != 0 {
      FrontierIsLow(tangle, c, sys, p);
      frontier := sys.syncer.sent.frontier.value;
      written := SentAreHeld(sys.syncer, ac, n, events);
    }
  }

  lemma SentAreHeld(s: Sy.State, ac: Config, n: nat, events: seq<ArchiverEvent>) returns (written: set<nat>)
    requires Once(s, true) && s.sent.frontier.value <= MAX_INDEX
    requires n <= |s.sent.archived| && Merges(events, s.sent.archived[..n])
    ensures var end, sent, frontier := Run(ac, Opened(s.sent.frontier.value), events), s.sent.archived[..n], s.sent.frontier.value;
            && end.Some?
            && Ordered(end.value.files) && Contents(ac, end.value.files) && Tiles(end.value.files, written)
            && (forall x: nat :: x < frontier ==> Cover(end.value.files, x) == Count(sent, x) <= 1)
            && (forall d: MilestoneData :: d.index < frontier ==> Copies(end.value.files, d) == Lines(sent, d))
  {
    var frontier, sent := s.sent.frontier.value, s.sent.archived;
    forall x: nat
      ensures Count(sent, x) <= 1
    {
      assert Load(s, true, x) <= 1;
    }
    PrefixIsOnce(sent, frontier, n);
    written := MergedHolds(ac, events, sent[..n], frontier);
  }
}
