/** A run of Solidifiers, Collectors and Requesters in which a message is closed for the milestone that references it, and
    the data of the milestone leave without it. There are two of each; Solidifier 0 has milestone 2, Collector 0 is asked
    for the milestone, and Collector 1 knows the messages. */
module FalseClose {
  import opened Types
  import So = SolidifierSpec
  import opened CollectorSpec
  import opened CollectorTruth
  import AskNet
  import opened SolidifierProofs
  import opened Ranges
  import Sync = SyncTable
  import Sy = SyncerSpec
  import opened SyncerBootstrap

  // ------------------------------------------------------------------------------------------------------------
  // The messages
  // ------------------------------------------------------------------------------------------------------------

  const parentId := MessageId(1, 0)
  const parent := Message([], None)

  /** Milestone 2, with one parent. */
  const msId := MessageId(1, 1)
  const ms := FullMessage(Message([parentId], Some(2)), msId, 2)

  /** Milestone 2 references both messages. */
  const truth: Truth := id => 2

  // ------------------------------------------------------------------------------------------------------------
  // The Solidifier
  // ------------------------------------------------------------------------------------------------------------

  /** The milestone's message is stored, its parent is pending. */
  function Waiting(milestone: Option<MessageId>): MilestoneData {
    MilestoneData(2, Syncer, milestone, map[msId := ms], {parentId})
  }

  /** Milestone 2 is the first one, and `entries` is in progress. */
  function Sol(entries: map<nat, MilestoneData>, inDatabase: map<nat, So.InDatabase>, unreachable: set<nat>): So.State {
    So.State(0, 2, 1, true, entries, inDatabase, {}, unreachable, Some(2), 4)
  }

  const asking := So.AskMessage(2, parentId, Syncer)

  lemma StoresAndAsks(d: MilestoneData)
    requires d == NewMilestoneData(2, Syncer)
    ensures So.Stored(d, ms) == Waiting(None) && So.ParentAsks(d, 2, ms) == [asking]
  {
    assert So.Missing([parentId], So.Known(d)) == [parentId] + So.Missing([], So.Known(d) + {parentId});
    assert So.Ids([parentId]) == {parentId};
  }

  lemma FirstOpens()
    ensures var (t, outs) := So.Step(So.Init(0, 2, 1, true), So.Message(ms));
            t == Sol(map[2 := Waiting(None)], map[], {}) && outs == [So.AskMilestone(2), asking]
  {
    StoresAndAsks(NewMilestoneData(2, Syncer));
  }

  /** The milestone event finds the parent pending already. */
  lemma MilestoneIsNoted(inDatabase: map<nat, So.InDatabase>)
    ensures var (t, outs) := So.Step(Sol(map[2 := Waiting(None)], inDatabase, {}), So.Milestone(2, ms));
            t == Sol(map[2 := Waiting(Some(msId))], inDatabase, {}) && outs == []
  {
    var d := Waiting(None);
    assert So.Missing([parentId], So.Known(d)) == So.Missing([], So.Known(d)) == [];
    assert So.Ids([]) == {};
    assert So.Stored(d, ms) == d;
  }

  lemma FailureEnds()
    ensures var (t, outs) := So.Step(Sol(map[2 := Waiting(Some(msId))], map[], {}), So.SolidifyFailure(2));
            t == Sol(map[], map[], {2}) && outs == [So.ToSyncer(Unreachable(2))]
  {
    assert map[2 := Waiting(Some(msId))] - {2} == map[];
  }

  lemma RequestReopens()
    ensures var (t, outs) := So.Step(Sol(map[], map[], {2}), So.Solidify(2));
            t == Sol(map[2 := NewMilestoneData(2, Syncer)], map[2 := So.NEW_IN_DATABASE], {}) && outs == [So.AskMilestone(2)]
  {
  }

  lemma AsksOnceMore(inDatabase: map<nat, So.InDatabase>)
    ensures var (t, outs) := So.Step(Sol(map[2 := NewMilestoneData(2, Syncer)], inDatabase, {}), So.Message(ms));
            t == Sol(map[2 := Waiting(None)], inDatabase, {}) && outs == [asking]
  {
    StoresAndAsks(NewMilestoneData(2, Syncer));
  }

  /** The data of the milestone without its parent. */
  const cut := Waiting(Some(msId)).(pending := {})

  lemma CloseCompletes()
    ensures var (t, outs) := So.Step(Sol(map[2 := Waiting(Some(msId))], map[2 := So.NEW_IN_DATABASE], {}), So.CloseMessage(parentId, 2));
            && t == Sol(map[], map[2 := So.InDatabase(false, Some(1), {})], {})
            && outs == [So.InsertAnalytic(cut), So.ToSyncer(Collected(cut))]
  {
    assert |map[msId := ms]| == 1;
    assert map[2 := cut] - {2} == map[];
  }

  lemma MessageIsDropped(m: FullMessage, inDatabase: map<nat, So.InDatabase>)
    requires m.refMs == 2
    ensures var (t, outs) := So.Step(Sol(map[], inDatabase, {}), So.Message(m));
            t == Sol(map[], inDatabase, {}) && outs == []
  {
  }

  // ------------------------------------------------------------------------------------------------------------
  // The Collector
  // ------------------------------------------------------------------------------------------------------------

  /** Collector 0 with its count of unanswered requests, and what it keeps of the milestone once that is fetched. */
  function Asker(processed: int): State {
    State(2, 0, 0, map[], map[], [], [Handle.Handle(0, processed)])
  }

  const fetched := State(2, 0, 2, map[msId := Cached(2, ms.message)], map[msId := 2], [], [Handle.Handle(0, 0)])

  function Unreferenced(messages: map<MessageId, Cached>): State {
    State(2, 0, 0, messages, map[], [], [Handle.Handle(0, 0)])
  }

  /** Collector 1: both messages are known, the metadata of the milestone only. */
  function Col(parked: seq<Parked>): State {
    State(2, 3, 2, map[parentId := Cached(0, parent), msId := Cached(2, ms.message)], map[msId := 2], parked, [Handle.Handle(0, 0)])
  }

  const waits := Parked(parentId, 2, parent)

  lemma MilestoneIsReferenced()
    ensures var s := Unreferenced(map[parentId := Cached(0, parent), msId := Cached(0, ms.message)]);
            var (t, outs) := Step(s, Referenced(Metadata(msId, Some(2))));
            t == Col([]) && outs == [ToSolidifier(0, So.Message(ms)), CleanUp(msId, 0), Persist(msId, 2)]
  {
    var s := Unreferenced(map[parentId := Cached(0, parent), msId := Cached(0, ms.message)]);
    var t := s.(ref := 2, est := 3, refs := map[msId := 2]);
    assert s.refs[msId := 2] == map[msId := 2];
    assert Release(t.requesters, Remove([], msId), 2) == (t.requesters, [], []);
    assert Corrected(t, msId, 2, ms.message) == Col([]).messages;
    assert Pushed(t, msId, 2) + Settle(t, Find([], msId), msId, 2) + [] + Written(t, msId, 2)
        == [ToSolidifier(0, So.Message(ms)), CleanUp(msId, 0), Persist(msId, 2)];
    assert Step(s, Referenced(Metadata(msId, Some(2)))) == Reference(t, msId, 2);
  }

  lemma MilestoneIsRequested()
    ensures var (t, outs) := Step(Asker(0), AskMilestone(2));
            t == Asker(1) && outs == [Request(0, TheMilestone, 2)]
  {
    assert SendTo([Handle.Handle(0, 0)], 0) == [Handle.Handle(0, 1)];
  }

  lemma AskIsParked()
    ensures var (t, outs) := Step(Col([]), AskMessage(0, 2, parentId, Syncer));
            t == Col([waits]) && outs == []
  {
    assert [] + [waits] == [waits];
  }

  lemma FetchFails()
    ensures var (t, outs) := Step(Asker(1), Fetched(0, 2, None));
            t == Asker(0) && outs == [ToSolidifier(0, So.SolidifyFailure(2))]
  {
    assert Decremented([Handle.Handle(0, 1)], 0) == [Handle.Handle(0, 0)];
  }

  lemma FetchSucceeds()
    ensures var (t, outs) := Step(Asker(1), Fetched(0, 2, Some(ms)));
            t == fetched && outs == [ToSolidifier(0, So.Message(ms)), Persist(msId, 2)]
  {
    var s := Asker(1);
    assert Decremented([Handle.Handle(0, 1)], 0) == [Handle.Handle(0, 0)];
    assert Corrected(s, msId, 2, ms.message) == fetched.messages && s.refs[msId := 2] == fetched.refs;
    assert [Full(2, 2, ms)] + WrongEstimate(s, msId, 2) + [Persist(msId, 2)] == [ToSolidifier(0, So.Message(ms)), Persist(msId, 2)];
  }

  lemma AskIsClosed()
    ensures var (t, outs) := Step(Col([waits]), AskMessage(0, 2, parentId, Syncer));
            t == Col([waits]) && outs == [ToSolidifier(0, So.CloseMessage(parentId, 2))]
  {
    assert Find([waits], parentId) == Some(waits);
    assert Remove([waits], parentId) == Remove([], parentId) == [];
    assert [] + [waits] == [waits];
  }

  /** The metadata of the parent come at last. */
  lemma ParentIsReferenced()
    ensures var (t, outs) := Step(Col([waits]), Referenced(Metadata(parentId, Some(2))));
            outs == [ToSolidifier(0, So.Message(late)), CleanUp(parentId, 0), Persist(parentId, 2)]
  {
    var s := Col([waits]);
    var t := s.(refs := s.refs[parentId := 2]);
    assert Find([waits], parentId) == Some(waits) && Remove([waits], parentId) == [];
    assert Release(t.requesters, [], 2).2 == [];
    assert Pushed(t, parentId, 2) + Settle(t, Some(waits), parentId, 2) + [] + Written(t, parentId, 2)
        == [ToSolidifier(0, So.Message(late)), CleanUp(parentId, 0), Persist(parentId, 2)];
  }

  // ------------------------------------------------------------------------------------------------------------
  // Steps of the network
  // ------------------------------------------------------------------------------------------------------------

  const other := So.Init(1, 2, 1, true)

  function Net(sol: So.State, asker: State, col: State, items: seq<AskNet.Item>): AskNet.Net {
    AskNet.Net([sol, other], [asker, col], items)
  }

  ghost predicate Leads(net: AskNet.Net, a: AskNet.Action, t: AskNet.Net) {
    AskNet.Wired(net) && AskNet.Act(net, a) == t
  }

  ghost predicate Reaches(net: AskNet.Net, actions: seq<AskNet.Action>, t: AskNet.Net) {
    AskNet.Run(net, actions) == t
  }

  lemma {:induction false} RunsJoin(net: AskNet.Net, a: seq<AskNet.Action>, t: AskNet.Net, b: seq<AskNet.Action>, u: AskNet.Net)
    requires Reaches(net, a, t) && Reaches(t, b, u)
    ensures Reaches(net, a + b, u)
    decreases |a|
  {
    if a == [] || !AskNet.Wired(net) {
      assert a == [] ==> a + b == b;
    } else {
      assert (a + b)[1..] == a[1..] + b;
      RunsJoin(AskNet.Act(net, a[0]), a[1..], t, b, u);
    }
  }

  lemma OneReaches(net: AskNet.Net, a: AskNet.Action, t: AskNet.Net)
    requires Leads(net, a, t)
    ensures Reaches(net, [a], t)
  {
    assert AskNet.Run(t, []) == t;
    assert [a][1..] == [];
  }

  lemma TwoReach(net: AskNet.Net, a: AskNet.Action, t: AskNet.Net, b: AskNet.Action, u: AskNet.Net)
    requires Leads(net, a, t) && Leads(t, b, u)
    ensures Reaches(net, [a, b], u)
  {
    OneReaches(net, a, t);
    OneReaches(t, b, u);
    RunsJoin(net, [a], t, [b], u);
    assert [a] + [b] == [a, b];
  }

  lemma ThreeReach(net: AskNet.Net, a: AskNet.Action, t: AskNet.Net, b: AskNet.Action, u: AskNet.Net, c: AskNet.Action, v: AskNet.Net)
    requires Leads(net, a, t) && Leads(t, b, u) && Leads(u, c, v)
    ensures Reaches(net, [a, b, c], v)
  {
    TwoReach(net, a, t, b, u);
    OneReaches(u, c, v);
    RunsJoin(net, [a, b], u, [c], v);
    assert [a, b] + [c] == [a, b, c];
  }

  /** The next item is an event for Solidifier 0. */
  lemma SolGets(s: So.State, a: State, c: State, e: So.Event, rest: seq<AskNet.Item>, t: So.State, items: seq<AskNet.Item>)
    requires s.count == a.count == c.count == 2 && So.Step(s, e).0 == t && items == rest + AskNet.SolItems(So.Step(s, e).1, 2)
    ensures Leads(Net(s, a, c, [AskNet.ToSol(0, e)] + rest), AskNet.Deliver(0), Net(t, a, c, items))
  {
    assert AskNet.Without([AskNet.ToSol(0, e)] + rest, 0) == rest;
  }

  lemma SolSees(s: So.State, a: State, c: State, e: So.Event, rest: seq<AskNet.Item>, t: So.State, items: seq<AskNet.Item>)
    requires s.count == a.count == c.count == 2 && Subject(e) % 2 == 0
    requires So.Step(s, e).0 == t && items == rest + AskNet.SolItems(So.Step(s, e).1, 2)
    ensures Leads(Net(s, a, c, rest), AskNet.AtSolidifier(0, e), Net(t, a, c, items))
  {
  }

  /** The item brings the event to Collector `c`. */
  predicate Brings(item: AskNet.Item, c: nat, e: Event) {
    match item
    case ToCollector(at, ask) => at == c && ask == e
    case Answer(at, r, index, result) => at == c && e == Fetched(r, index, result)
    case _ => false
  }

  lemma AskerGets(s: So.State, a: State, c: State, item: AskNet.Item, e: Event, rest: seq<AskNet.Item>, t: State, items: seq<AskNet.Item>)
    requires Brings(item, 0, e)
    requires s.count == a.count == c.count == 2 && Step(a, e).0 == t && items == rest + AskNet.ColItems(Step(a, e).1, 0)
    ensures Leads(Net(s, a, c, [item] + rest), AskNet.Deliver(0), Net(s, t, c, items))
  {
    assert AskNet.Without([item] + rest, 0) == rest;
  }

  lemma ColGets(s: So.State, a: State, c: State, item: AskNet.Item, e: Event, rest: seq<AskNet.Item>, t: State, items: seq<AskNet.Item>)
    requires Brings(item, 1, e)
    requires s.count == a.count == c.count == 2 && Step(c, e).0 == t && items == rest + AskNet.ColItems(Step(c, e).1, 1)
    ensures Leads(Net(s, a, c, [item] + rest), AskNet.Deliver(0), Net(s, a, t, items))
  {
    assert AskNet.Without([item] + rest, 0) == rest;
  }

  lemma ColSees(s: So.State, a: State, c: State, e: Event, rest: seq<AskNet.Item>, t: State, items: seq<AskNet.Item>)
    requires e.Seen? || e.Referenced?
    requires s.count == a.count == c.count == 2 && Step(c, e).0 == t && items == rest + AskNet.ColItems(Step(c, e).1, 1)
    ensures Leads(Net(s, a, c, rest), AskNet.AtCollector(1, e), Net(s, a, t, items))
  {
  }

  lemma MilestoneIsFetched(s: So.State, a: State, c: State, result: Option<FullMessage>)
    requires s.count == a.count == c.count == 2
    ensures Leads(Net(s, a, c, [atRequester]), AskNet.Fetch(0, result), Net(s, a, c, [AskNet.Answer(0, 0, 2, result)]))
  {
    assert AskNet.Without([atRequester], 0) + [AskNet.Answer(0, 0, 2, result)] == [AskNet.Answer(0, 0, 2, result)];
  }

  // ------------------------------------------------------------------------------------------------------------
  // The run
  // ------------------------------------------------------------------------------------------------------------

  const askMilestone := AskNet.ToCollector(0, AskMilestone(2))
  const askParent := AskMessage(0, 2, parentId, Syncer)
  const toParent := AskNet.ToCollector(1, askParent)
  const atRequester := AskNet.AtRequester(0, 0, TheMilestone, 2)
  const failure := So.SolidifyFailure(2)
  const opening := map[2 := So.NEW_IN_DATABASE]

  function InProgress(inDatabase: map<nat, So.InDatabase>): So.State {
    Sol(map[2 := Waiting(Some(msId))], inDatabase, {})
  }

  lemma ItemsOfAsks()
    ensures AskNet.SolItems([So.AskMilestone(2), asking], 2) == [askMilestone, toParent]
    ensures AskNet.SolItems([asking], 2) == [toParent]
    ensures AskNet.SolItems([So.AskMilestone(2)], 2) == [askMilestone]
  {
    assert AskNet.SolItems([asking], 2) == AskNet.SolItem(asking, 2) + AskNet.SolItems([], 2);
    assert [So.AskMilestone(2), asking][1..] == [asking];
    assert [So.AskMilestone(2)][1..] == [];
  }

  lemma ItemsOfCollector(c: nat, e: So.Event, a: Out, b: Out)
    requires !a.ToSolidifier? && !a.Request? && !b.ToSolidifier? && !b.Request?
    ensures AskNet.ColItems([ToSolidifier(0, e)], c) == [AskNet.ToSol(0, e)]
    ensures AskNet.ColItems([ToSolidifier(0, e), a], c) == [AskNet.ToSol(0, e)]
    ensures AskNet.ColItems([ToSolidifier(0, e), a, b], c) == [AskNet.ToSol(0, e)]
  {
    assert [ToSolidifier(0, e)][1..] == [];
    assert AskNet.ColItems([b], c) == AskNet.ColItem(b, c) + AskNet.ColItems([], c);
    assert [a, b][1..] == [b];
    assert AskNet.ColItems([a, b], c) == AskNet.ColItem(a, c) + AskNet.ColItems([b], c);
    assert AskNet.ColItems([a], c) == AskNet.ColItem(a, c) + AskNet.ColItems([], c);
    assert [ToSolidifier(0, e), a, b][1..] == [a, b];
    assert [ToSolidifier(0, e), a][1..] == [a];
  }

  /** The messages and the metadata of the milestone come from the feed. */
  lemma FeedComes(sol: So.State) returns (actions: seq<AskNet.Action>)
    requires sol == So.Init(0, 2, 1, true)
    ensures Reaches(Net(sol, Asker(0), Unreferenced(map[]), []), actions, Net(sol, Asker(0), Col([]), [AskNet.ToSol(0, So.Message(ms))]))
  {
    var a, c0, c1 := Asker(0), Unreferenced(map[]), Unreferenced(map[parentId := Cached(0, parent)]);
    var c2 := Unreferenced(map[parentId := Cached(0, parent), msId := Cached(0, ms.message)]);
    MilestoneIsReferenced();
    ItemsOfCollector(1, So.Message(ms), CleanUp(msId, 0), Persist(msId, 2));
    assert c0.messages[parentId := Cached(0, parent)] == c1.messages && c1.messages[msId := Cached(0, ms.message)] == c2.messages;
    ColSees(sol, a, c0, Seen(parentId, parent), [], c1, []);
    ColSees(sol, a, c1, Seen(msId, ms.message), [], c2, []);
    ColSees(sol, a, c2, Referenced(Metadata(msId, Some(2))), [], Col([]), [AskNet.ToSol(0, So.Message(ms))]);
    actions := [AskNet.AtCollector(1, Seen(parentId, parent)), AskNet.AtCollector(1, Seen(msId, ms.message)),
                AskNet.AtCollector(1, Referenced(Metadata(msId, Some(2))))];
    ThreeReach(Net(sol, a, c0, []), actions[0], Net(sol, a, c1, []), actions[1], Net(sol, a, c2, []), actions[2],
               Net(sol, a, Col([]), [AskNet.ToSol(0, So.Message(ms))]));
  }

  /** The Solidifier opens its first milestone, and asks for it and for its parent. */
  lemma FirstAsks() returns (actions: seq<AskNet.Action>)
    ensures Reaches(Net(So.Init(0, 2, 1, true), Asker(0), Col([]), [AskNet.ToSol(0, So.Message(ms))]), actions,
                    Net(InProgress(map[]), Asker(0), Col([]), [askMilestone, toParent]))
  {
    var a, c, items := Asker(0), Col([]), [askMilestone, toParent];
    var s0, s1 := So.Init(0, 2, 1, true), Sol(map[2 := Waiting(None)], map[], {});
    FirstOpens();
    MilestoneIsNoted(map[]);
    ItemsOfAsks();
    assert [AskNet.ToSol(0, So.Message(ms))] + [] == [AskNet.ToSol(0, So.Message(ms))];
    SolGets(s0, a, c, So.Message(ms), [], s1, items);
    SolSees(s1, a, c, So.Milestone(2, ms), items, InProgress(map[]), items);
    actions := [AskNet.Deliver(0), AskNet.AtSolidifier(0, So.Milestone(2, ms))];
    TwoReach(Net(s0, a, c, [AskNet.ToSol(0, So.Message(ms))]), actions[0], Net(s1, a, c, items), actions[1],
             Net(InProgress(map[]), a, c, items));
  }

  /** The milestone is requested from a peer; the ask for the parent is parked. */
  lemma ParentIsParked(s: So.State) returns (actions: seq<AskNet.Action>)
    requires s.count == 2
    ensures Reaches(Net(s, Asker(0), Col([]), [askMilestone, toParent]), actions, Net(s, Asker(1), Col([waits]), [atRequester]))
  {
    MilestoneIsRequested();
    AskIsParked();
    assert AskNet.ColItems([Request(0, TheMilestone, 2)], 0) == [atRequester];
    assert [askMilestone] + [toParent] == [askMilestone, toParent] && [toParent] + [atRequester] == [toParent, atRequester];
    AskerGets(s, Asker(0), Col([]), askMilestone, AskMilestone(2), [toParent], Asker(1), [toParent, atRequester]);
    ColGets(s, Asker(1), Col([]), toParent, askParent, [atRequester], Col([waits]), [atRequester]);
    actions := [AskNet.Deliver(0), AskNet.Deliver(0)];
    TwoReach(Net(s, Asker(0), Col([]), [askMilestone, toParent]), actions[0], Net(s, Asker(1), Col([]), [toParent, atRequester]),
             actions[1], Net(s, Asker(1), Col([waits]), [atRequester]));
  }

  /** The Solidifier has given milestone 2 up. */
  function Failed(): AskNet.Net {
    Net(Sol(map[], map[], {2}), Asker(0), Col([waits]), [])
  }

  /** No peer has the milestone. */
  lemma MilestoneFails() returns (actions: seq<AskNet.Action>)
    ensures Reaches(Net(InProgress(map[]), Asker(1), Col([waits]), [atRequester]), actions, Failed())
  {
    var s, t, c := InProgress(map[]), Sol(map[], map[], {2}), Col([waits]);
    var answer := AskNet.Answer(0, 0, 2, None);
    FetchFails();
    FailureEnds();
    ItemsOfCollector(0, failure, CleanUp(msId, 0), CleanUp(msId, 0));
    assert AskNet.SolItems([So.ToSyncer(Unreachable(2))], 2) == [];
    MilestoneIsFetched(s, Asker(1), c, None);
    assert [answer] + [] == [answer] && [AskNet.ToSol(0, failure)] + [] == [AskNet.ToSol(0, failure)];
    AskerGets(s, Asker(1), c, answer, Fetched(0, 2, None), [], Asker(0), [AskNet.ToSol(0, failure)]);
    SolGets(s, Asker(0), c, failure, [], t, []);
    actions := [AskNet.Fetch(0, None), AskNet.Deliver(0), AskNet.Deliver(0)];
    ThreeReach(Net(s, Asker(1), c, [atRequester]), actions[0], Net(s, Asker(1), c, [answer]), actions[1],
               Net(s, Asker(0), c, [AskNet.ToSol(0, failure)]), actions[2], Failed());
  }

  /** The milestone is in progress again, and was fetched. */
  function FetchedAgain(): AskNet.Net {
    Net(Sol(map[2 := NewMilestoneData(2, Syncer)], opening, {}), Asker(1), Col([waits]), [AskNet.Answer(0, 0, 2, Some(ms))])
  }

  /** The Syncer requests the milestone, and this time a peer has it. */
  lemma MilestoneIsAskedAgain() returns (actions: seq<AskNet.Action>)
    ensures Reaches(Failed(), actions, FetchedAgain())
  {
    var s, t, c := Sol(map[], map[], {2}), Sol(map[2 := NewMilestoneData(2, Syncer)], opening, {}), Col([waits]);
    RequestReopens();
    ItemsOfAsks();
    MilestoneIsRequested();
    assert AskNet.ColItems([Request(0, TheMilestone, 2)], 0) == [atRequester];
    assert [askMilestone] + [] == [askMilestone];
    SolSees(s, Asker(0), c, So.Solidify(2), [], t, [askMilestone]);
    AskerGets(t, Asker(0), c, askMilestone, AskMilestone(2), [], Asker(1), [atRequester]);
    MilestoneIsFetched(t, Asker(1), c, Some(ms));
    actions := [AskNet.AtSolidifier(0, So.Solidify(2)), AskNet.Deliver(0), AskNet.Fetch(0, Some(ms))];
    ThreeReach(Failed(), actions[0], Net(t, Asker(0), c, [askMilestone]), actions[1], Net(t, Asker(1), c, [atRequester]), actions[2],
               FetchedAgain());
  }

  /** The Solidifier's second ask for the parent is on its way; its first is parked. */
  function AsksTwice(): AskNet.Net {
    Net(InProgress(opening), fetched, Col([waits]), [toParent])
  }

  lemma ParentIsAskedAgain() returns (actions: seq<AskNet.Action>)
    ensures Reaches(FetchedAgain(), actions, AsksTwice())
  {
    var s, t, c := Sol(map[2 := NewMilestoneData(2, Syncer)], opening, {}), Sol(map[2 := Waiting(None)], opening, {}), Col([waits]);
    var answer, e := AskNet.Answer(0, 0, 2, Some(ms)), So.Message(ms);
    FetchSucceeds();
    AsksOnceMore(opening);
    MilestoneIsNoted(opening);
    ItemsOfCollector(0, e, Persist(msId, 2), Persist(msId, 2));
    ItemsOfAsks();
    assert [answer] + [] == [answer] && [AskNet.ToSol(0, e)] + [] == [AskNet.ToSol(0, e)];
    AskerGets(s, Asker(1), c, answer, Fetched(0, 2, Some(ms)), [], fetched, [AskNet.ToSol(0, e)]);
    SolGets(s, fetched, c, e, [], t, [toParent]);
    SolSees(t, fetched, c, So.Milestone(2, ms), [toParent], InProgress(opening), [toParent]);
    actions := [AskNet.Deliver(0), AskNet.Deliver(0), AskNet.AtSolidifier(0, So.Milestone(2, ms))];
    ThreeReach(FetchedAgain(), actions[0], Net(s, fetched, c, [AskNet.ToSol(0, e)]), actions[1], Net(t, fetched, c, [toParent]), actions[2],
               AsksTwice());
  }

  ghost function Begin(): AskNet.Net {
    AskNet.Begin(2, 1, true, [Handle.Handle(0, 0)])
  }

  lemma RunToFailure() returns (actions: seq<AskNet.Action>)
    ensures Reaches(Begin(), actions, Failed())
  {
    var s0 := So.Init(0, 2, 1, true);
    assert Begin() == Net(s0, Asker(0), Unreferenced(map[]), []);
    actions := FeedComes(s0);
    var more := FirstAsks();
    RunsJoin(Begin(), actions, Net(s0, Asker(0), Col([]), [AskNet.ToSol(0, So.Message(ms))]), more,
             Net(InProgress(map[]), Asker(0), Col([]), [askMilestone, toParent]));
    actions := actions + more;
    more := ParentIsParked(InProgress(map[]));
    RunsJoin(Begin(), actions, Net(InProgress(map[]), Asker(0), Col([]), [askMilestone, toParent]), more,
             Net(InProgress(map[]), Asker(1), Col([waits]), [atRequester]));
    actions := actions + more;
    more := MilestoneFails();
    RunsJoin(Begin(), actions, Net(InProgress(map[]), Asker(1), Col([waits]), [atRequester]), more, Failed());
    actions := actions + more;
  }

  lemma RunToAsk() returns (actions: seq<AskNet.Action>)
    ensures Reaches(Begin(), actions, AsksTwice())
  {
    actions := RunToFailure();
    var more := MilestoneIsAskedAgain();
    RunsJoin(Begin(), actions, Failed(), more, FetchedAgain());
    actions := actions + more;
    more := ParentIsAskedAgain();
    RunsJoin(Begin(), actions, FetchedAgain(), more, AsksTwice());
    actions := actions + more;
  }

  const closing := So.CloseMessage(parentId, 2)

  /** The message is closed for the milestone. */
  function Closes(): AskNet.Net {
    Net(InProgress(opening), fetched, Col([waits]), [AskNet.ToSol(0, closing)])
  }

  /** The milestone has left the Solidifier. */
  function Left(): AskNet.Net {
    Net(Sol(map[], map[2 := So.InDatabase(false, Some(1), {})], {}), fetched, Col([waits]), [])
  }

  lemma SecondAskIsClosed()
    ensures Leads(AsksTwice(), AskNet.Deliver(0), Closes())
  {
    AskIsClosed();
    ItemsOfCollector(1, closing, CleanUp(msId, 0), CleanUp(msId, 0));
    assert [toParent] + [] == [toParent];
    ColGets(InProgress(opening), fetched, Col([waits]), toParent, askParent, [], Col([waits]), [AskNet.ToSol(0, closing)]);
  }

  lemma MilestoneLeaves()
    ensures Leads(Closes(), AskNet.Deliver(0), Left())
    ensures So.ToSyncer(Collected(cut)) in So.Step(Closes().sols[0], closing).1
  {
    var outs := [So.InsertAnalytic(cut), So.ToSyncer(Collected(cut))];
    CloseCompletes();
    assert outs[1] in outs && outs[1..] == [outs[1]] && [outs[1]][1..] == [];
    assert AskNet.SolItems([outs[1]], 2) == AskNet.SolItem(outs[1], 2) + [] == [];
    assert AskNet.SolItems(outs, 2) == [];
    assert [AskNet.ToSol(0, closing)] + [] == [AskNet.ToSol(0, closing)];
    SolGets(InProgress(opening), fetched, Col([waits]), closing, [], Left().sols[0], []);
  }

  const late := FullMessage(parent, parentId, 2)

  /** When the metadata of the parent come, the Solidifier has nothing to put it into. */
  lemma ParentComesLate()
    ensures AskNet.Act(Left(), AskNet.AtCollector(1, Referenced(Metadata(parentId, Some(2))))).items == [AskNet.ToSol(0, So.Message(late))]
    ensures So.Step(Left().sols[0], So.Message(late)) == (Left().sols[0], [])
  {
    var e := Referenced(Metadata(parentId, Some(2)));
    ParentIsReferenced();
    ItemsOfCollector(1, So.Message(late), CleanUp(parentId, 0), Persist(parentId, 2));
    var s, t := Left().sols[0], Step(Col([waits]), e).0;
    ColSees(s, fetched, Col([waits]), e, [], t, [AskNet.ToSol(0, So.Message(late))]);
    MessageIsDropped(late, s.inDatabase);
  }

  /** Main result: from the start state a run reaches a second ask of milestone 2 for a message that is parked for it and
      that it references. The Collector closes the message for the milestone; the data of the milestone are complete and
      leave without this parent of theirs; and when the message's metadata come it is dropped. */
  lemma ClosedWithoutItsParent() returns (actions: seq<AskNet.Action>)
    ensures Reaches(Begin(), actions, AsksTwice()) && AsksTwice().items == [toParent]
    ensures Honest(truth, AsksTwice().cols[1]) && Genuine(truth, askParent) && AsksAgain(truth, AsksTwice().cols[1], askParent)
    ensures Leads(AsksTwice(), AskNet.Deliver(0), Closes()) && !True(truth, ToSolidifier(0, closing))
    ensures Leads(Closes(), AskNet.Deliver(0), Left())
    ensures So.ToSyncer(Collected(cut)) in So.Step(Closes().sols[0], closing).1
    ensures cut.messages[msId].message.parents == [parentId] && parentId !in cut.messages
    ensures AskNet.Act(Left(), AskNet.AtCollector(1, Referenced(Metadata(parentId, Some(2))))).items == [AskNet.ToSol(0, So.Message(late))]
    ensures So.Step(Left().sols[0], So.Message(late)) == (Left().sols[0], [])
  {
    actions := RunToAsk();
    SecondAskIsClosed();
    MilestoneLeaves();
    ParentComesLate();
  }

  // ------------------------------------------------------------------------------------------------------------
  // At the Syncer
  // ------------------------------------------------------------------------------------------------------------

  /** The sync table is empty. */
  const empty := Sync.Snapshot([], [], [Range(1, Sy.LAST_GAP_END)])

  const two := Sy.Config(2, true, false)

  lemma ThirdIsSent(u: Sy.State, three: MilestoneData) returns (v: Sy.State)
    requires u.heap == [three] && three.index == 3
    ensures v == Sy.SendFirst(two, u) && v == u.(heap := [], highest := 3, sent := v.sent)
    ensures v.sent.requested == u.sent.requested
  {
    v := Sy.SendFirst(two, u);
    var u1 := u.(highest := 3);
    var u2 := Sy.Archive(two, u1.(heap := []), Data(three, None));
    assert Sy.SendRest(two, u1, 3) == Sy.SendRest(two, u2, 4);
  }

  lemma GapIsTaken(v: Sy.State) returns (w: Sy.State)
    requires v.syncData == empty && v.active.None? && v.pending == 0 && v.highest == 3
    requires v.firstAsk == Some(Sy.AskComplete) && v.sent.requested == []
    ensures w == Sy.CompleteOrFillGaps(two, v) && w.pending == 2 && w.sent.requested == [1, 2]
  {
    assert Sync.TakeUncomplete(empty) == (Some(Range(1, Sy.LAST_GAP_END)), empty.(gaps := []));
    var t := Sy.Start(v.(syncData := empty.(gaps := [])), Range(1, 3), true);
    assert Sy.TakeNext(two, v, true) == Sy.TriggerProcessMore(two, t);
    assert Sy.ProcessMore(two, t) == Sy.RequestFromActive(t, 2);
    w := Sy.RequestFromActive(t, 2);
    assert [] + Iota(1, 3) == [1, 2];
  }

  /** The request of the run: Solidifier 0 reports its first milestone unreachable, Solidifier 1 has milestone 3 first, and
      the Syncer requests milestone 2 with the gap in front of it. */
  lemma SyncerRequestsIt(three: MilestoneData)
    requires three.index == 3
    ensures var end := AfterReplies(two, Sy.Init(empty, Some(Sy.AskComplete), 2), [Unreachable(2), Collected(three)]);
            end.Some? && end.value.sent.requested == [1, 2]
  {
    var s := Sy.Init(empty, Some(Sy.AskComplete), 2);
    var s1 := s.(pending := 1, skip := true, sent := s.sent.(alerts := [2]));
    assert Sy.HandleReply(two, s, Unreachable(2)) == s1;
    assert Sy.Push([], three) == [three];
    var v := ThirdIsSent(s1.(pending := 0, heap := [three]), three);
    var w := GapIsTaken(v);
    assert Sy.HandleReply(two, s1, Collected(three)) == w;
    OneReplyMore(two, s, [Unreachable(2)], s1, Collected(three));
    assert [Unreachable(2)] + [Collected(three)] == [Unreachable(2), Collected(three)];
  }
}
