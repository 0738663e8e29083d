/** A run of two Solidifiers, the Syncer and the Archiver in which a milestone is handed over, and written, twice. */
module SecondHandover {
  import opened Types
  import opened Ranges
  import Sync = SyncTable
  import Sy = SyncerSpec
  import So = SolidifierSpec
  import opened Tokens
  import opened PipelineSpec
  import opened Pipeline
  import opened ArchiverSpec
  import opened SyncerHandover
  import opened ArchiverFiles
  import opened ArchiverProofs
  import Cones = SolidifierCones

  /** A milestone message without parents. */
  function Own(x: nat): FullMessage {
    FullMessage(Message([], Some(x)), MessageId(1, x), x)
  }

  /** What a Solidifier collects for it. */
  function Whole(x: nat): MilestoneData {
    MilestoneData(x, Syncer, Some(MessageId(1, x)), map[MessageId(1, x) := Own(x)], {})
  }

  function Arrival(x: nat): So.Event {
    So.Milestone(x, Own(x))
  }

  /** No message has parents. */
  const flat: Cones.Tangle := id => []

  // ------------------------------------------------------------------------------------------------------------
  // At a Solidifier
  // ------------------------------------------------------------------------------------------------------------

  /** One of two Solidifiers with nothing in progress, which serves requests below `expected`. */
  predicate Ready(s: So.State, first: Option<nat>, expected: nat) {
    && s.count == 2 && s.gapStart == 1 && s.entries == map[] && s.unreachable == {}
    && s.first == first && s.expected == expected
  }

  /** Only milestone `x` is in progress; all that may be there is its own message. */
  predicate Expects(s: So.State, x: nat, first: Option<nat>, expected: nat) {
    && x in s.entries && s.entries.Keys == {x}
    && Ready(s.(entries := map[]), first, expected)
    && var d := s.entries[x];
       d == NewMilestoneData(x, Syncer) || d == NewMilestoneData(x, Syncer).(messages := map[MessageId(1, x) := Own(x)])
  }

  lemma FirstOpens(s: So.State, x: nat)
    requires Ready(s, None, 0) && x >= 1
    ensures var (t, outs) := So.Step(s, Arrival(x)); Expects(t, x, Some(x), x + 2) && Replies(outs) == []
  {
    assert So.Ids([]) == {};
  }

  lemma RequestOpens(s: So.State, x: nat, first: Option<nat>, expected: nat)
    requires Ready(s, first, expected) && x < expected
    ensures var (t, outs) := So.Step(s, So.Solidify(x)); Expects(t, x, first, expected) && Replies(outs) == []
  {
  }

  lemma RepliesOfPush(outs: seq<So.Out>, d: MilestoneData, analytic: So.Out, synced: seq<So.Out>)
    requires outs == [analytic] + synced + [So.ToSyncer(Collected(d))]
    requires !analytic.ToSyncer? && (synced == [] || (|synced| == 1 && !synced[0].ToSyncer?))
    ensures Replies(outs) == [Collected(d)]
  {
    RepliesConcat([analytic] + synced, [So.ToSyncer(Collected(d))]);
    RepliesConcat([analytic], synced);
  }

  lemma StoredIsWhole(d: MilestoneData, x: nat)
    requires d == NewMilestoneData(x, Syncer) || d == NewMilestoneData(x, Syncer).(messages := map[MessageId(1, x) := Own(x)])
    ensures So.Stored(d, Own(x)).(milestone := Some(MessageId(1, x))) == Whole(x)
    ensures So.ParentAsks(d, x, Own(x)) == []
  {
    assert So.Ids([]) == {};
  }

  lemma WholeIsPushed(s: So.State, x: nat, first: Option<nat>, expected: nat)
    requires x in s.entries && s.entries[x] == Whole(x) && s.entries.Keys == {x}
    requires Ready(s.(entries := map[]), first, expected)
    ensures var (t, outs) := So.PushIfCompleted(s, x); Ready(t, first, expected) && Replies(outs) == [Collected(Whole(x))]
  {
    var (t, outs) := So.PushOut(s, x);
    assert s.entries - {x} == map[];
    RepliesOfPush(outs, Whole(x), So.InsertAnalytic(Whole(x)), outs[1..|outs| - 1]);
  }

  lemma ArrivalCompletes(s: So.State, x: nat, first: Option<nat>, expected: nat)
    requires Expects(s, x, first, expected)
    ensures var (t, outs) := So.Step(s, Arrival(x)); Ready(t, first, expected) && Replies(outs) == [Collected(Whole(x))]
  {
    var u := s.(entries := s.entries[x := Whole(x)]);
    StoredIsWhole(s.entries[x], x);
    WholeIsPushed(u, x, first, expected);
    assert [] + So.PushIfCompleted(u, x).1 == So.PushIfCompleted(u, x).1;
  }

  // ------------------------------------------------------------------------------------------------------------
  // In the system
  // ------------------------------------------------------------------------------------------------------------

  /** Two Solidifiers with nothing in progress, no reply in flight, and the given Syncer and requests in flight. */
  ghost predicate Rests(sys: System, s: Sy.State, toSol: seq<nat>, first: seq<Option<nat>>) {
    && |sys.sols| == 2 == |first| && sys.syncer == s && sys.toSol == toSol && sys.toSyncer == []
    && forall i :: 0 <= i < 2 ==> Ready(sys.sols[i].state, first[i], Expected(first[i]))
  }

  function Expected(first: Option<nat>): nat {
    if first.Some? then first.value + 2 else 0
  }

  /** Solidifier x % 2 has milestone `x` in progress. */
  ghost predicate Collects(sys: System, s: Sy.State, toSol: seq<nat>, first: seq<Option<nat>>, x: nat) {
    && |sys.sols| == 2 == |first| && sys.syncer == s && sys.toSol == toSol && sys.toSyncer == []
    && Expects(sys.sols[x % 2].state, x, first[x % 2], Expected(first[x % 2]))
    && Ready(sys.sols[1 - x % 2].state, first[1 - x % 2], Expected(first[1 - x % 2]))
  }

  lemma FirstIsDelivered(c: Sy.Config, sys: System, s: Sy.State, toSol: seq<nat>, first: seq<Option<nat>>, x: nat) returns (t: System)
    requires Rests(sys, s, toSol, first) && first[x % 2].None? && 1 <= x <= Sy.LAST_GAP_END
    ensures Wired(sys) && Act(flat, c, sys, Deliver(x % 2, Arrival(x))) == Some(t)
    ensures Collects(t, s, toSol, first[x % 2 := Some(x)], x)
  {
    t := AtSolidifier(sys, x % 2, Arrival(x));
    FirstOpens(sys.sols[x % 2].state, x);
  }

  lemma RequestIsDelivered(c: Sy.Config, sys: System, s: Sy.State, first: seq<Option<nat>>, x: nat) returns (t: System)
    requires Rests(sys, s, [x], first) && x < Expected(first[x % 2])
    ensures Wired(sys) && Act(flat, c, sys, DeliverRequest(0)) == Some(t)
    ensures Collects(t, s, [], first, x)
  {
    assert PipelineSpec.Without([x], 0) == [];
    t := AtSolidifier(sys.(toSol := []), x % 2, So.Solidify(x));
    RequestOpens(sys.sols[x % 2].state, x, first[x % 2], Expected(first[x % 2]));
  }

  /** Nothing is in progress, and the data of milestone `x` are on their way to the Syncer. */
  ghost predicate Answers(sys: System, s: Sy.State, toSol: seq<nat>, first: seq<Option<nat>>, x: nat) {
    && sys.toSyncer == [Collected(Whole(x))]
    && Rests(sys.(toSyncer := []), s, toSol, first)
  }

  /** `t` is `sys` after a step of Solidifier `i` to `now` that sent `answers`. */
  ghost predicate Stepped(sys: System, i: nat, now: So.State, answers: seq<Reply>, t: System) {
    && i < |sys.sols| == |t.sols| && t.syncer == sys.syncer && t.toSol == sys.toSol
    && t.toSyncer == sys.toSyncer + answers
    && t.sols[i].state == now && forall j :: 0 <= j < |sys.sols| && j != i ==> t.sols[j] == sys.sols[j]
  }

  lemma EventSteps(sys: System, i: nat, e: So.Event) returns (t: System, now: So.State, answers: seq<Reply>)
    requires i < |sys.sols| && sys.sols[i].state.count > 0
    ensures t == AtSolidifier(sys, i, e) && Stepped(sys, i, now, answers, t)
    ensures now == So.Step(sys.sols[i].state, e).0 && answers == Replies(So.Step(sys.sols[i].state, e).1)
  {
    t := AtSolidifier(sys, i, e);
    now, answers := t.sols[i].state, Replies(So.Step(sys.sols[i].state, e).1);
  }

  lemma StepAnswers(sys: System, s: Sy.State, toSol: seq<nat>, first: seq<Option<nat>>, x: nat, now: So.State, t: System)
    requires Collects(sys, s, toSol, first, x)
    requires Stepped(sys, x % 2, now, [Collected(Whole(x))], t)
    requires Ready(now, first[x % 2], Expected(first[x % 2]))
    ensures Answers(t, s, toSol, first, x)
  {
    assert [] + [Collected(Whole(x))] == [Collected(Whole(x))];
    assert t.sols[1 - x % 2] == sys.sols[1 - x % 2];
  }

  lemma ArrivalAnswers(sys: System, s: Sy.State, toSol: seq<nat>, first: seq<Option<nat>>, x: nat, e: So.Event) returns (t: System)
    requires Collects(sys, s, toSol, first, x) && e == Arrival(x)
    ensures Wired(sys) && t == AtSolidifier(sys, x % 2, e) && Answers(t, s, toSol, first, x)
  {
    var now, answers;
    ArrivalCompletes(sys.sols[x % 2].state, x, first[x % 2], Expected(first[x % 2]));
    t, now, answers := EventSteps(sys, x % 2, e);
    StepAnswers(sys, s, toSol, first, x, now, t);
  }

  lemma ArrivalIsEnabled(sys: System, x: nat, e: So.Event)
    requires |sys.sols| == 2 && x <= Sy.LAST_GAP_END && e == Arrival(x)
    ensures Enabled(flat, sys, Deliver(x % 2, e))
  {
  }

  lemma ArrivalIsDelivered(c: Sy.Config, sys: System, s: Sy.State, toSol: seq<nat>, first: seq<Option<nat>>, x: nat, e: So.Event)
    returns (t: System)
    requires Collects(sys, s, toSol, first, x) && x <= Sy.LAST_GAP_END && e == Arrival(x)
    ensures Wired(sys) && Act(flat, c, sys, Deliver(x % 2, e)) == Some(t)
    ensures Answers(t, s, toSol, first, x)
  {
    t := ArrivalAnswers(sys, s, toSol, first, x, e);
    ArrivalIsEnabled(sys, x, e);
    IsDelivered(c, sys, x % 2, e);
  }

  lemma IsDelivered(c: Sy.Config, sys: System, i: nat, e: So.Event)
    requires Wired(sys) && Enabled(flat, sys, Deliver(i, e))
    ensures Act(flat, c, sys, Deliver(i, e)) == Some(AtSolidifier(sys, i, e))
  {
  }

  lemma ReplyIsDelivered(c: Sy.Config, sys: System, s: Sy.State, toSol: seq<nat>, first: seq<Option<nat>>, x: nat,
                         u: Sy.State, news: seq<nat>) returns (t: System)
    requires Answers(sys, s, toSol, first, x)
    requires Sy.AcceptsReply(s) && u == Sy.HandleReply(c, s, Collected(Whole(x))) && u.sent.requested == s.sent.requested + news
    ensures Wired(sys) && Act(flat, c, sys, DeliverReply(0)) == Some(t)
    ensures Rests(t, u, toSol + news, first)
  {
    assert PipelineSpec.Without(sys.toSyncer, 0) == [];
    t := AtSyncer(sys.(toSyncer := [], answered := sys.answered + multiset{x}), u);
  }

  lemma RunOfThree(c: Sy.Config, sys: System, a: PipelineSpec.Action, t: System, b: PipelineSpec.Action, u: System,
                   d: PipelineSpec.Action, v: System)
    requires Wired(sys) && Wired(t) && Wired(u)
    requires Act(flat, c, sys, a) == Some(t) && Act(flat, c, t, b) == Some(u) && Act(flat, c, u, d) == Some(v)
    ensures RunOf(flat, c, sys, [a, b, d]) == Some(v)
  {
    assert [a, b, d][1..] == [b, d] && [b, d][1..] == [d] && [d][1..] == [];
    assert RunOf(flat, c, u, [d]) == RunOf(flat, c, v, []);
    assert RunOf(flat, c, t, [b, d]) == RunOf(flat, c, u, [d]);
  }

  /** The first milestone of Solidifier x % 2 is observed, collected and handled by the Syncer. */
  lemma FirstComes(c: Sy.Config, sys: System, s: Sy.State, first: seq<Option<nat>>, x: nat, u: Sy.State, news: seq<nat>)
    returns (actions: seq<PipelineSpec.Action>, t: System)
    requires Rests(sys, s, [], first) && first[x % 2].None? && 1 <= x <= Sy.LAST_GAP_END
    requires Sy.AcceptsReply(s) && u == Sy.HandleReply(c, s, Collected(Whole(x))) && u.sent.requested == s.sent.requested + news
    ensures RunOf(flat, c, sys, actions) == Some(t)
    ensures Rests(t, u, news, first[x % 2 := Some(x)])
  {
    var a := FirstIsDelivered(c, sys, s, [], first, x);
    var b := ArrivalIsDelivered(c, a, s, [], first[x % 2 := Some(x)], x, Arrival(x));
    t := ReplyIsDelivered(c, b, s, [], first[x % 2 := Some(x)], x, u, news);
    actions := [Deliver(x % 2, Arrival(x)), Deliver(x % 2, Arrival(x)), DeliverReply(0)];
    RunOfThree(c, sys, actions[0], a, actions[1], b, actions[2], t);
    assert [] + news == news;
  }

  /** The request for milestone `x` is delivered; the milestone is collected and handled by the Syncer. */
  lemma RequestIsServed(c: Sy.Config, sys: System, s: Sy.State, first: seq<Option<nat>>, x: nat, u: Sy.State, news: seq<nat>)
    returns (actions: seq<PipelineSpec.Action>, t: System)
    requires Rests(sys, s, [x], first) && x < Expected(first[x % 2]) && x <= Sy.LAST_GAP_END
    requires Sy.AcceptsReply(s) && u == Sy.HandleReply(c, s, Collected(Whole(x))) && u.sent.requested == s.sent.requested + news
    ensures RunOf(flat, c, sys, actions) == Some(t)
    ensures Rests(t, u, news, first)
  {
    var a := RequestIsDelivered(c, sys, s, first, x);
    var b := ArrivalIsDelivered(c, a, s, [], first, x, Arrival(x));
    t := ReplyIsDelivered(c, b, s, [], first, x, u, news);
    actions := [DeliverRequest(0), Deliver(x % 2, Arrival(x)), DeliverReply(0)];
    RunOfThree(c, sys, actions[0], a, actions[1], b, actions[2], t);
    assert [] + news == news;
  }

  lemma {:induction false} RunsJoin(c: Sy.Config, sys: System, a: seq<PipelineSpec.Action>, t: System, b: seq<PipelineSpec.Action>)
    requires RunOf(flat, c, sys, a) == Some(t)
    ensures RunOf(flat, c, sys, a + b) == RunOf(flat, c, t, b)
    decreases |a|
  {
    if a == [] {
      assert a + b == b;
    } else {
      assert (a + b)[1..] == a[1..] + b;
      RunsJoin(c, Act(flat, c, sys, a[0]).value, a[1..], t, b);
    }
  }

  // ------------------------------------------------------------------------------------------------------------
  // At the Syncer
  // ------------------------------------------------------------------------------------------------------------

  /** One request at a time. */
  const one := Sy.Config(1, true, false)

  /** The sync table is empty. */
  const empty := Sync.Snapshot([], [], [Range(1, Sy.LAST_GAP_END)])

  function Boot(): seq<ArchiverEvent> {
    [Data(Whole(2), None), Close(3), Data(Whole(5), None), Close(6)]
  }

  /** The Syncer has handed over 1 .. n - 1 of the gap 1 .. 4, and requested `n`. */
  function Working(n: nat, requested: seq<nat>, archived: seq<ArchiverEvent>): Sy.State {
    Sy.State(empty.(gaps := []), Some(Sy.Complete(Range(n + 1, 5))), Some(Sy.AskComplete), [], 5, 1, false, false, Sy.Gap(1, 5, n, 0),
             Sy.Sent(requested, [Range(1, 5)], archived, [], Some(6), 0))
  }

  lemma FirstWaits(s: Sy.State)
    requires s == Sy.Init(empty, Some(Sy.AskComplete), 2)
    ensures Sy.AcceptsReply(s)
    ensures Sy.HandleReply(one, s, Collected(Whole(2))) == s.(pending := 1, heap := [Whole(2)])
  {
    assert Sy.Push([], Whole(2)) == [Whole(2)];
  }

  lemma FirstsAreSent(s: Sy.State) returns (t: Sy.State)
    requires s.heap == [Whole(2), Whole(5)] && s.sent.archived == []
    ensures t == Sy.SendFirst(one, s)
    ensures t == s.(heap := [], highest := 5, sent := s.sent.(archived := Boot(), frontier := Some(6)))
  {
    var s1 := s.(highest := 2);
    var s2 := s1.(heap := [Whole(5)], sent := s1.sent.(archived := [Data(Whole(2), None)]));
    var s3 := s2.(highest := 5, heap := [], sent := s2.sent.(archived := [Data(Whole(2), None), Close(3), Data(Whole(5), None)]));
    assert [] + [Data(Whole(2), None)] == [Data(Whole(2), None)];
    assert s1.heap[1..] == [Whole(5)] && s2.heap[1..] == [];
    assert Sy.SendRest(one, s1, 2) == Sy.SendRest(one, s2, 3);
    assert Sy.SendRest(one, s2, 3) == Sy.SendRest(one, s3, 6);
    t := Sy.SendRest(one, s3, 6);
  }

  lemma GapIsTaken(v: Sy.State)
    requires v == Sy.Init(empty, Some(Sy.AskComplete), 2).(pending := 0, highest := 5, sent := Sy.Sent([], [], Boot(), [], Some(6), 0))
    ensures Sy.TakeNext(one, v, true) == Working(1, [1], Boot())
  {
    assert Sync.TakeUncomplete(empty) == (Some(Range(1, Sy.LAST_GAP_END)), empty.(gaps := []));
    var t := Sy.Start(v.(syncData := empty.(gaps := [])), Range(1, 5), true);
    assert Sy.TakeNext(one, v, true) == Sy.TriggerProcessMore(one, t);
    assert Sy.ProcessMore(one, t) == Sy.RequestFromActive(t, 1);
    assert Iota(1, 2) == [1];
  }

  lemma BootEnds(s: Sy.State)
    requires s == Sy.Init(empty, Some(Sy.AskComplete), 2).(pending := 1, heap := [Whole(2)])
    ensures Sy.AcceptsReply(s)
    ensures Sy.HandleReply(one, s, Collected(Whole(5))) == Working(1, [1], Boot())
  {
    var u := s.(pending := 0, heap := [Whole(2), Whole(5)]);
    assert Sy.Push([Whole(2)], Whole(5)) == [Whole(2), Whole(5)];
    var v := FirstsAreSent(u);
    GapIsTaken(v);
  }

  lemma NextIsHandedOver(n: nat, requested: seq<nat>, archived: seq<ArchiverEvent>)
    requires 1 <= n < 4
    ensures var s := Working(n, requested, archived);
            && Sy.AcceptsReply(s)
            && Sy.HandleReply(one, s, Collected(Whole(n)))
               == Working(n + 1, requested + [n + 1], archived + [Data(Whole(n), Some(5))])
  {
    var s := Working(n, requested, archived);
    var u := s.(pending := 0, heap := [Whole(n)]);
    assert Sy.Push([], Whole(n)) == [Whole(n)];
    assert Iota(n + 1, n + 2) == [n + 1];
    var t := Sy.RequestFromActive(u, 1);
    assert Sy.Flush(one, t) == Working(n + 1, requested + [n + 1], archived + [Data(Whole(n), Some(5))]);
  }

  // ------------------------------------------------------------------------------------------------------------
  // At the Archiver
  // ------------------------------------------------------------------------------------------------------------

  /** The first line of the only active file. */
  lemma WritesAlone(c: Config, s: State, d: MilestoneData, limit: Option<nat>)
    requires s.files.logs == [] && s.files.cleanup == [] && d.createdBy.Syncer? && d.index < s.next
    requires !InProcessed(s.files.processed, d.index) && Create(d.index, limit).upper > d.index + 1
    ensures Step(c, s, Data(d, limit)) == Some(s.(files := s.files.(logs := [AppendLine(c, Create(d.index, limit), d)])))
  {
    var f := AppendLine(c, Create(d.index, limit), d);
    assert Inserted([], f) == [f] && LowerAll([f]) == [f];
    assert NewlyFinished([f], 1) == [] && s.files.cleanup + [] == [];
  }

  lemma ClosesAlone(c: Config, s: State, f: LogFile)
    requires s.files.logs == [f] && f.to < s.next
    ensures Step(c, s, Close(f.to)) == Some(s.(files := PushToProcessed(s.files.(logs := []), f.(finished := true))))
  {
    assert ArchiverSpec.Without([f], 0) == [];
  }

  lemma WritesInFront(c: Config, s: State, d: MilestoneData, behind: LogFile)
    requires s.files.logs == [behind] && s.files.cleanup == [] && d.createdBy.Syncer? && d.index + 1 < behind.from < behind.to
    requires d.index < s.next && !InProcessed(s.files.processed, d.index)
    ensures Step(c, s, Data(d, Some(behind.from)))
         == Some(s.(files := s.files.(logs := [AppendLine(c, Create(d.index, Some(behind.from)), d), behind])))
  {
    var f := AppendLine(c, Create(d.index, Some(behind.from)), d);
    assert Place([behind], d.index) == 0;
    assert Inserted([behind], f) == [f, behind] && LowerAll([f, behind]) == [f, behind];
    assert NewlyFinished([f, behind], 2) == NewlyFinished([f, behind], 1) == NewlyFinished([f, behind], 0) == [];
  }

  lemma GrowsInFront(c: Config, s: State, f: LogFile, behind: LogFile, d: MilestoneData)
    requires s.files.logs == [f, behind] && s.files.cleanup == [] && d.createdBy.Syncer?
    requires f.to == d.index < s.next && d.index + 1 < f.upper && c.lineLen(d) + f.len < c.maxLogSize
    ensures Step(c, s, Data(d, Some(f.upper))) == Some(s.(files := s.files.(logs := [AppendLine(c, f, d), behind])))
  {
    assert FindOpen([f, behind], d.index) == 0;
    assert [f, behind][0 := AppendLine(c, f, d)] == [AppendLine(c, f, d), behind];
  }

  lemma CoverOfTwo(fs: Files, x: nat)
    requires |fs.logs| == 2 && |fs.processed| == 1
    ensures Cover(fs, x) == Holding(x)(fs.logs[0]) + Holding(x)(fs.logs[1]) + One(fs.processed[0].Has(x))
  {
    var w, rest := Holding(x), fs.logs[1..];
    assert rest[1..] == [] && fs.processed[1..] == [];
    assert Sum(rest, w) == w(rest[0]) + Sum([], w);
    assert Sum(fs.logs, w) == w(fs.logs[0]) + Sum(rest, w);
    assert InRanges(fs.processed, x) == One(fs.processed[0].Has(x)) + InRanges([], x);
  }

  lemma RunCons(c: Config, s: State, e: ArchiverEvent, t: State, rest: seq<ArchiverEvent>)
    requires Step(c, s, e) == Some(t)
    ensures Run(c, s, [e] + rest) == Run(c, t, rest)
  {
    assert ([e] + rest)[1..] == rest;
  }

  /** After the bootstrap: the file of milestone 2 is closed, that of 5 still grows. */
  function HoleBehind(c: Config): State {
    State(Files([AppendLine(c, Create(5, None), Whole(5))], [], [Range(2, 3)],
                [AppendLine(c, Create(2, None), Whole(2)).(finished := true)]), [], 6)
  }

  /** Milestone 2 was written, and its file closed. */
  function Closed(c: Config): State {
    State(Files([], [], [Range(2, 3)], [AppendLine(c, Create(2, None), Whole(2)).(finished := true)]), [], 6)
  }

  lemma FirstIsClosed(c: Config, rest: seq<ArchiverEvent>)
    ensures Run(c, Opened(6), [Data(Whole(2), None)] + ([Close(3)] + rest)) == Run(c, Closed(c), rest)
  {
    var f := AppendLine(c, Create(2, None), Whole(2));
    var s1 := State(Files([f], [], [], []), [], 6);
    WritesAlone(c, Opened(6), Whole(2), None);
    ClosesAlone(c, s1, f);
    assert PushToProcessed(s1.files.(logs := []), f.(finished := true)) == Closed(c).files by {
      assert [] + [f.(finished := true)] == [f.(finished := true)];
      assert InsertedRange([], Range(2, 3)) == [Range(2, 3)];
    }
    RunCons(c, Opened(6), Data(Whole(2), None), s1, [Close(3)] + rest);
    RunCons(c, s1, Close(3), Closed(c), rest);
  }

  lemma SecondStaysOpen(c: Config, rest: seq<ArchiverEvent>)
    ensures Run(c, Closed(c), [Data(Whole(5), None)] + ([Close(6)] + rest)) == Run(c, HoleBehind(c), rest)
  {
    WritesAlone(c, Closed(c), Whole(5), None);
    RunCons(c, Closed(c), Data(Whole(5), None), HoleBehind(c), [Close(6)] + rest);
    RunCons(c, HoleBehind(c), Close(6), HoleBehind(c), rest);
  }

  lemma BootIsTwoFiles(rest: seq<ArchiverEvent>, second: seq<ArchiverEvent>)
    requires second == [Data(Whole(5), None)] + ([Close(6)] + rest)
    ensures Boot() + rest == [Data(Whole(2), None)] + ([Close(3)] + second)
  {
  }

  lemma HoleIsLeft(c: Config, events: seq<ArchiverEvent>, rest: seq<ArchiverEvent>)
    requires events == Boot() + rest
    ensures Run(c, Opened(6), events) == Run(c, HoleBehind(c), rest)
  {
    var second := [Data(Whole(5), None)] + ([Close(6)] + rest);
    FirstIsClosed(c, second);
    SecondStaysOpen(c, rest);
    BootIsTwoFiles(rest, second);
  }

  function Again(): seq<ArchiverEvent> {
    [Data(Whole(1), Some(5)), Data(Whole(2), Some(5))]
  }

  /** Milestones 1 and 2 of the gap are written to one file in front. */
  lemma GapIsWritten(c: Config)
    requires c.lineLen(Whole(1)) + c.lineLen(Whole(2)) < c.maxLogSize
    ensures var s := HoleBehind(c);
            var f := AppendLine(c, Create(1, Some(5)), Whole(1));
            Run(c, s, Again()) == Some(s.(files := s.files.(logs := [AppendLine(c, f, Whole(2)), s.files.logs[0]])))
  {
    var s3 := HoleBehind(c);
    var behind, f := s3.files.logs[0], AppendLine(c, Create(1, Some(5)), Whole(1));
    var s4 := s3.(files := s3.files.(logs := [f, behind]));
    var s5 := s3.(files := s3.files.(logs := [AppendLine(c, f, Whole(2)), behind]));
    WritesInFront(c, s3, Whole(1), behind);
    GrowsInFront(c, s4, f, behind, Whole(2));
    RunCons(c, s3, Data(Whole(1), Some(5)), s4, [Data(Whole(2), Some(5))]);
    RunCons(c, s4, Data(Whole(2), Some(5)), s5, []);
    assert Again() == [Data(Whole(1), Some(5))] + [Data(Whole(2), Some(5))];
    assert [Data(Whole(2), Some(5))] + [] == [Data(Whole(2), Some(5))];
  }

  /** The Archiver writes milestone 2 into two files. */
  lemma SecondHandoverOverlaps(c: Config)
    requires c.lineLen(Whole(1)) + c.lineLen(Whole(2)) < c.maxLogSize
    ensures var end := Run(c, Opened(6), Boot() + Again()); end.Some? && Cover(end.value.files, 2) == 2
  {
    HoleIsLeft(c, Boot() + Again(), Again());
    GapIsWritten(c);
    CoverOfTwo(Run(c, Opened(6), Boot() + Again()).value.files, 2);
  }

  // ------------------------------------------------------------------------------------------------------------
  // From the start
  // ------------------------------------------------------------------------------------------------------------

  lemma BootRuns(sys: System) returns (actions: seq<PipelineSpec.Action>, t: System)
    requires sys == Begin(one, empty, Some(Sy.AskComplete), 2, 1)
    ensures RunOf(flat, one, sys, actions) == Some(t)
    ensures Rests(t, Working(1, [1], Boot()), [1], [Some(2), Some(5)])
  {
    var s0 := sys.syncer;
    var s1 := s0.(pending := 1, heap := [Whole(2)]);
    FirstWaits(s0);
    BootEnds(s1);
    var a, u := FirstComes(one, sys, s0, [None, None], 2, s1, []);
    assert [None, None][0 := Some(2)] == [Some(2), None];
    var b: seq<PipelineSpec.Action>;
    b, t := FirstComes(one, u, s1, [Some(2), None], 5, Working(1, [1], Boot()), [1]);
    assert [Some(2), None][1 := Some(5)] == [Some(2), Some(5)];
    RunsJoin(one, sys, a, u, b);
    actions := a + b;
  }

  /** The request for milestone `n` is served, and its data are handed over. */
  lemma GapAdvances(sys: System, n: nat, requested: seq<nat>, archived: seq<ArchiverEvent>)
    returns (actions: seq<PipelineSpec.Action>, t: System)
    requires 1 <= n <= 2 && Rests(sys, Working(n, requested, archived), [n], [Some(2), Some(5)])
    ensures RunOf(flat, one, sys, actions) == Some(t)
    ensures Rests(t, Working(n + 1, requested + [n + 1], archived + [Data(Whole(n), Some(5))]), [n + 1], [Some(2), Some(5)])
  {
    var s := Working(n, requested, archived);
    var u := Working(n + 1, requested + [n + 1], archived + [Data(Whole(n), Some(5))]);
    NextIsHandedOver(n, requested, archived);
    actions, t := RequestIsServed(one, sys, s, [Some(2), Some(5)], n, u, [n + 1]);
  }

  lemma GapRuns(sys: System) returns (actions: seq<PipelineSpec.Action>, t: System)
    requires Rests(sys, Working(1, [1], Boot()), [1], [Some(2), Some(5)])
    ensures RunOf(flat, one, sys, actions) == Some(t)
    ensures t.syncer.sent.archived == Boot() + Again() && t.syncer.sent.frontier == Some(6)
  {
    var a, u := GapAdvances(sys, 1, [1], Boot());
    var b: seq<PipelineSpec.Action>;
    b, t := GapAdvances(u, 2, [1] + [2], Boot() + [Data(Whole(1), Some(5))]);
    RunsJoin(one, sys, a, u, b);
    actions := a + b;
    assert (Boot() + [Data(Whole(1), Some(5))]) + [Data(Whole(2), Some(5))] == Boot() + Again();
  }

  /** Main result: two Solidifiers see milestones 2 and 5 first, and the sync table lists everything from 1 on as missing.
      The pipeline has a run in which milestone 2 is handed over with the first milestones and again with the gap 1 .. 4;
      and the Archiver, taking just what it was sent, writes it into two files. */
  lemma WrittenTwice(c: Config) returns (actions: seq<PipelineSpec.Action>, sys: System)
    requires c.lineLen(Whole(1)) + c.lineLen(Whole(2)) < c.maxLogSize
    ensures RunOf(flat, one, Begin(one, empty, Some(Sy.AskComplete), 2, 1), actions) == Some(sys)
    ensures Sync.Tidy(empty) && sys.syncer.sent.frontier == Some(6) && Count(sys.syncer.sent.archived, 2) == 2
    ensures var end := Run(c, Opened(6), sys.syncer.sent.archived); end.Some? && Cover(end.value.files, 2) == 2
  {
    var start := Begin(one, empty, Some(Sy.AskComplete), 2, 1);
    var a, t := BootRuns(start);
    var b: seq<PipelineSpec.Action>;
    b, sys := GapRuns(t);
    RunsJoin(one, start, a, t, b);
    actions := a + b;
    SecondHandoverOverlaps(c);
    CountOfTwo();
  }

  lemma CountOfTwo()
    ensures Count(Boot() + Again(), 2) == 2
  {
    var e := Boot() + Again();
    var e5 := [Data(Whole(2), None), Close(3), Data(Whole(5), None), Close(6), Data(Whole(1), Some(5))];
    assert e == e5 + [Data(Whole(2), Some(5))];
    CountSnoc(e5, Data(Whole(2), Some(5)), 2);
    var e4 := Boot();
    assert e5 == e4 + [Data(Whole(1), Some(5))];
    CountSnoc(e4, Data(Whole(1), Some(5)), 2);
    var e3 := [Data(Whole(2), None), Close(3), Data(Whole(5), None)];
    assert e4 == e3 + [Close(6)];
    CountSnoc(e3, Close(6), 2);
    var e2 := [Data(Whole(2), None), Close(3)];
    assert e3 == e2 + [Data(Whole(5), None)];
    CountSnoc(e2, Data(Whole(5), None), 2);
    assert e2 == [Data(Whole(2), None)] + [Close(3)];
    CountSnoc([Data(Whole(2), None)], Close(3), 2);
    assert [] + [Data(Whole(2), None)] == [Data(Whole(2), None)];
    CountSnoc([], Data(Whole(2), None), 2);
  }
}
