/** What becomes of the entries of a Solidifier: each is handed over, given up after a failure, or still incomplete. */
module SolidifierProgress {
  import opened Types
  import opened SolidifierSpec
  import opened SolidifierProofs
  import opened SolidifierRuns

  /** Nothing is missing from these data. */
  ghost predicate Done(d: MilestoneData) {
    d.pending == {} && d.milestone.Some?
  }

  /** The event adds to an entry, or settles one of its messages. */
  predicate Feeds(e: Event) {
    Arrives(e) || e.CloseMessage?
  }

  /** The message the event is about. */
  function Id(e: Event): MessageId
    requires Feeds(e)
  {
    if e.CloseMessage? then e.id else e.message.id
  }

  /** `p` is a parent that the entry `d` does not have when the event arrives. */
  ghost predicate Lacks(d: MilestoneData, e: Event, p: MessageId) {
    Arrives(e) && p in e.message.message.parents && p !in d.messages && p != NULL_ID
  }

  /** `u` is the entry `d` after the event: its message is in, or closed, and it waits for the parents it lacks. */
  ghost predicate Fed(d: MilestoneData, e: Event, u: MilestoneData)
    requires Feeds(e)
  {
    && u.index == d.index && u.createdBy == d.createdBy
    && u.messages == (if Arrives(e) then d.messages[e.message.id := e.message] else d.messages)
    && u.milestone == (if e.Milestone? then Some(e.message.id) else d.milestone)
    && forall p :: p in u.pending <==> p != Id(e) && (p in d.pending || Lacks(d, e, p))
  }

  // ------------------------------------------------------------------------------------------------------------
  // Hand-over
  // ------------------------------------------------------------------------------------------------------------

  ghost function Only(outs: seq<Out>, p: Out -> bool): seq<Out> {
    if outs == [] then [] else (if p(outs[0]) then [outs[0]] else []) + Only(outs[1..], p)
  }

  lemma {:induction false} OnlyConcat(a: seq<Out>, b: seq<Out>, p: Out -> bool)
    ensures Only(a + b, p) == Only(a, p) + Only(b, p)
    decreases |a|
  {
    if a == [] {
      assert a + b == b;
    } else {
      OnlyConcat(a[1..], b, p);
      assert (a + b)[1..] == a[1..] + b;
    }
  }

  predicate HandsOver(o: Out) {
    (o.ToSyncer? && o.reply.Collected?) || o.ToArchiver?
  }

  predicate Analyzes(o: Out) {
    o.InsertAnalytic?
  }

  /** The data handed over, with the receiver. */
  ghost function HandOvers(outs: seq<Out>): seq<Out> {
    Only(outs, HandsOver)
  }

  /** The data whose analytics are to be stored. */
  ghost function Analytics(outs: seq<Out>): seq<Out> {
    Only(outs, Analyzes)
  }

  lemma HandOversConcat(a: seq<Out>, b: seq<Out>)
    ensures HandOvers(a + b) == HandOvers(a) + HandOvers(b)
    ensures Analytics(a + b) == Analytics(a) + Analytics(b)
  {
    OnlyConcat(a, b, HandsOver);
    OnlyConcat(a, b, Analyzes);
  }

  /** Data of the Syncer go to the Syncer, others to the Archiver if there is one. */
  ghost predicate Delivered(s: State, d: MilestoneData, outs: seq<Out>) {
    HandOvers(outs) == if d.createdBy.Syncer? then [ToSyncer(Collected(d))] else if s.archiving then [ToArchiver(Data(d, None))] else []
  }

  ghost predicate HandsNothing(outs: seq<Out>) {
    HandOvers(outs) == [] && Analytics(outs) == []
  }

  lemma {:induction false} NoneOnly(outs: seq<Out>, p: Out -> bool)
    requires forall i :: 0 <= i < |outs| ==> !p(outs[i])
    ensures Only(outs, p) == []
    decreases |outs|
  {
    if outs != [] { NoneOnly(outs[1..], p); }
  }

  lemma AsksHandNothing(outs: seq<Out>)
    requires forall i :: 0 <= i < |outs| ==> outs[i].AskMessage? || outs[i].AskMilestone? || outs[i].InsertSync?
    ensures HandsNothing(outs)
  {
    NoneOnly(outs, HandsOver);
    NoneOnly(outs, Analyzes);
  }

  /** Entry `k`, as `u` by now, was handed over, once and as it is, if nothing is missing from it, and else it stays. */
  ghost predicate Settled(s: State, k: nat, u: MilestoneData, now: (State, seq<Out>)) {
    if Done(u)
    then now.0.entries == s.entries - {k} && Delivered(s, u, now.1) && Analytics(now.1) == [InsertAnalytic(u)]
    else now.0.entries == s.entries[k := u] && HandsNothing(now.1)
  }

  lemma OnlyOne(o: Out, p: Out -> bool)
    ensures Only([o], p) == if p(o) then [o] else []
  {
    assert [o][1..] == [];
  }

  lemma Sends(s: State, u: MilestoneData, synced: seq<Out>)
    requires forall i :: 0 <= i < |synced| ==> synced[i].InsertSync?
    ensures var outs := [InsertAnalytic(u)] + synced + Deliver(s, u); Delivered(s, u, outs) && Analytics(outs) == [InsertAnalytic(u)]
  {
    AsksHandNothing(synced);
    OnlyOne(InsertAnalytic(u), HandsOver);
    OnlyOne(InsertAnalytic(u), Analyzes);
    if Deliver(s, u) != [] {
      assert Deliver(s, u) == [Deliver(s, u)[0]];
      OnlyOne(Deliver(s, u)[0], HandsOver);
      OnlyOne(Deliver(s, u)[0], Analyzes);
    }
    HandOversConcat([InsertAnalytic(u)] + synced, Deliver(s, u));
    HandOversConcat([InsertAnalytic(u)], synced);
  }

  lemma PushSettles(s: State, k: nat, u: MilestoneData)
    ensures Settled(s, k, u, PushIfCompleted(s.(entries := s.entries[k := u]), k))
  {
    var v := s.(entries := s.entries[k := u]);
    assert v.entries - {k} == s.entries - {k};
    if Done(u) {
      var known := if k in v.inDatabase then v.inDatabase[k] else NEW_IN_DATABASE;
      var w := v.(entries := v.entries - {k}, inDatabase := v.inDatabase[k := known.(messagesLen := Some(|u.messages|))]);
      Sends(v, u, SyncIfAllIn(w, k).1);
      assert PushIfCompleted(v, k).1 == [InsertAnalytic(u)] + SyncIfAllIn(w, k).1 + Deliver(v, u);
    }
  }

  lemma AsksFirst(s: State, k: nat, u: MilestoneData, asks: seq<Out>, now: (State, seq<Out>))
    requires Settled(s, k, u, now) && HandsNothing(asks)
    ensures Settled(s, k, u, (now.0, asks + now.1))
  {
    HandOversConcat(asks, now.1);
  }

  lemma FedByMessage(d: MilestoneData, e: Event)
    requires Arrives(e)
    ensures Fed(d, e, if e.Message? then Stored(d, e.message) else Stored(d, e.message).(milestone := Some(e.message.id)))
  {
    forall p
      ensures p in Missing(e.message.message.parents, Known(d)) <==> p in e.message.message.parents && p !in Known(d) && p != NULL_ID
    {
      MissingIds(e.message.message.parents, Known(d), p);
    }
  }

  lemma StoreSettles(s: State, e: Event) returns (u: MilestoneData)
    requires s.count > 0 && Arrives(e) && Subject(e) in s.entries
    ensures Fed(s.entries[Subject(e)], e, u) && Settled(s, Subject(e), u, Step(s, e))
  {
    var k := Subject(e);
    var d := s.entries[k];
    u := if e.Message? then Stored(d, e.message) else Stored(d, e.message).(milestone := Some(e.message.id));
    FedByMessage(d, e);
    PushSettles(s, k, u);
    AsksHandNothing(ParentAsks(d, k, e.message));
    AsksFirst(s, k, u, ParentAsks(d, k, e.message), PushIfCompleted(s.(entries := s.entries[k := u]), k));
  }

  /** What happens to an entry: it takes the event in; then it is handed over, once and as it is, if nothing is missing from
      it any more, and else it stays. */
  lemma EntrySettles(s: State, e: Event) returns (u: MilestoneData)
    requires s.count > 0 && Feeds(e) && Subject(e) in s.entries
    ensures Fed(s.entries[Subject(e)], e, u) && Settled(s, Subject(e), u, Step(s, e))
  {
    if Arrives(e) {
      u := StoreSettles(s, e);
    } else {
      u := s.entries[e.index].(pending := s.entries[e.index].pending - {e.id});
      PushSettles(s, e.index, u);
    }
  }

  // ------------------------------------------------------------------------------------------------------------
  // What opens and what ends an entry
  // ------------------------------------------------------------------------------------------------------------

  /** The arriving message makes the Solidifier open an entry for its milestone: the first one observed, or a new one. */
  predicate Enters(s: State, e: Event) {
    && Arrives(e) && Subject(e) !in s.entries && Subject(e) !in s.unreachable
    && Subject(e) >= if s.first.None? then s.gapStart else s.expected
  }

  /** The entry that a message opens: the first one belongs to the Syncer, later ones take the milestone from the message. */
  ghost predicate EntryOf(s: State, e: Event, u: MilestoneData)
    requires Arrives(e)
  {
    var m := e.message;
    && u.index == Subject(e) && u.createdBy == (if s.first.None? then Syncer else Incoming)
    && u.messages == map[m.id := m]
    && u.milestone == (if s.first.Some? && m.message.milestone.Some? then Some(m.id) else None)
    && forall p :: p in u.pending <==> p in m.message.parents && p != NULL_ID && p != m.id
  }

  /** A message that opens no entry changes nothing; one that does is kept in its entry, and the members of the class that
      were passed over get an empty one. */
  lemma ArrivalEnters(s: State, e: Event)
    requires Indexed(s) && Mine(s, Subject(e)) && Arrives(e) && Subject(e) !in s.entries
    ensures !Enters(s, e) ==> Step(s, e) == (s, [])
    ensures Enters(s, e) ==>
      var (t, outs) := Step(s, e);
      && t.first == Some(if s.first.None? then Subject(e) else s.first.value) && t.expected == Subject(e) + s.count
      && Subject(e) in t.entries && EntryOf(s, e, t.entries[Subject(e)])
      && (forall x :: x in t.entries && x !in s.entries && x != Subject(e) ==> t.entries[x] == NewMilestoneData(x, Expected))
      && HandsNothing(outs)
  {
    var k, m := Subject(e), e.message;
    assert Step(s, e) == InsertNewEntryOrNot(s, k, m);
    if Enters(s, e) {
      var d := NewMilestoneData(k, if s.first.None? then Syncer else Incoming);
      FedByMessage(d, Event.Message(m));
      AsksHandNothing(Step(s, e).1);
    }
  }

  lemma OneHandsNothing(outs: seq<Out>)
    requires |outs| <= 1 && forall o :: o in outs ==> !HandsOver(o) && !Analyzes(o)
    ensures HandsNothing(outs)
  {
    if outs != [] {
      assert outs == [outs[0]];
      OnlyOne(outs[0], HandsOver);
      OnlyOne(outs[0], Analyzes);
    }
  }

  /** What an event does that neither feeds an entry nor opens one on arrival: it hands nothing over, drops an entry only if
      it is a failure, and opens or changes one only if it is a request. */
  ghost predicate Aside(s: State, e: Event, now: (State, seq<Out>)) {
    && HandsNothing(now.1)
    && (forall k :: k in s.entries && k !in now.0.entries ==> e == SolidifyFailure(k))
    && (forall k :: k in s.entries && k in now.0.entries && now.0.entries[k] != s.entries[k] ==> e == Solidify(k))
    && (forall k :: k in now.0.entries && k !in s.entries ==> e == Solidify(k))
  }

  lemma RequestStaysAside(s: State, index: nat)
    ensures Aside(s, Solidify(index), HandleSolidify(s, index))
    ensures forall k :: k in HandleSolidify(s, index).0.entries && k !in s.entries ==> !Done(HandleSolidify(s, index).0.entries[k])
  {
    OneHandsNothing(HandleSolidify(s, index).1);
  }

  lemma OthersStayAside(s: State, e: Event)
    requires s.count > 0 && !Feeds(e)
    ensures Aside(s, e, Step(s, e))
  {
    if e.Solidify? {
      RequestStaysAside(s, e.index);
    } else if e.SolidifyFailure? {
      OneHandsNothing(HandleSolidifyFailure(s, e.index).1);
    } else {
      AsksHandNothing(Step(s, e).1);
    }
  }

  // ------------------------------------------------------------------------------------------------------------
  // Nothing complete stays
  // ------------------------------------------------------------------------------------------------------------

  ghost predicate NoneDone(s: State) {
    forall k :: k in s.entries ==> !Done(s.entries[k])
  }

  /** A new milestone opens its entry with its own message, which has no parent but the genesis. */
  ghost predicate Rooted(s: State, e: Event) {
    && Enters(s, e) && s.first.Some? && e.message.message.milestone.Some?
    && forall p :: p in e.message.message.parents ==> p == NULL_ID || p == e.message.id
  }

  lemma EnteredDone(s: State, e: Event, u: MilestoneData)
    requires Enters(s, e) && EntryOf(s, e, u)
    ensures Done(u) <==> Rooted(s, e)
  {
    if Rooted(s, e) { assert forall p :: p !in u.pending; }
    if Done(u) {
      forall p | p in e.message.message.parents
        ensures p == NULL_ID || p == e.message.id
      {
        assert p !in u.pending;
      }
    }
  }

  lemma ArrivalLeavesNoneDoneIff(s: State, e: Event)
    requires Indexed(s) && Mine(s, Subject(e)) && NoneDone(s) && Arrives(e) && Subject(e) !in s.entries
    ensures NoneDone(Step(s, e).0) <==> !Rooted(s, e)
  {
    ArrivalOpens(s, e);
    ArrivalEnters(s, e);
    if Enters(s, e) { EnteredDone(s, e, Step(s, e).0.entries[Subject(e)]); }
  }

  lemma AsideLeavesNoneDone(s: State, e: Event)
    requires s.count > 0 && NoneDone(s) && !Feeds(e)
    ensures NoneDone(Step(s, e).0)
  {
    OthersStayAside(s, e);
    if e.Solidify? {
      var t, k := Step(s, e).0, e.index;
      assert k in t.entries && k in s.entries ==> t.entries[k].pending == s.entries[k].pending && t.entries[k].milestone == s.entries[k].milestone;
      RequestStaysAside(s, k);
    }
  }

  /** Complete data are handed over at once, exactly unless the milestone is opened by its own message and that message has
      no parent but the genesis: such an entry stays until the next event about it. */
  lemma StepLeavesNoneDoneIff(s: State, e: Event)
    requires Indexed(s) && Mine(s, Subject(e)) && NoneDone(s)
    ensures NoneDone(Step(s, e).0) <==> !Rooted(s, e)
  {
    if Feeds(e) && Subject(e) in s.entries {
      var u := EntrySettles(s, e);
    } else if Arrives(e) {
      ArrivalLeavesNoneDoneIff(s, e);
    } else if !Feeds(e) {
      AsideLeavesNoneDone(s, e);
    }
  }

  // ------------------------------------------------------------------------------------------------------------
  // Every run
  // ------------------------------------------------------------------------------------------------------------

  /** The milestone a sent message is about. */
  function IndexOf(o: Out): nat {
    match o
    case ToSyncer(reply) => reply.Index()
    case ToArchiver(Data(d, _)) => d.index
    case ToArchiver(Close(index)) => index
    case AskMessage(index, _, _) => index
    case AskMilestone(index) => index
    case InsertAnalytic(d) => d.index
    case InsertSync(index) => index
  }

  /** How many of the messages are about milestone `k`. */
  ghost function About(outs: seq<Out>, k: nat): nat {
    if outs == [] then 0 else (if IndexOf(outs[0]) == k then 1 else 0) + About(outs[1..], k)
  }

  lemma {:induction false} AboutConcat(a: seq<Out>, b: seq<Out>, k: nat)
    ensures About(a + b, k) == About(a, k) + About(b, k)
    decreases |a|
  {
    if a == [] {
      assert a + b == b;
    } else {
      AboutConcat(a[1..], b, k);
      assert (a + b)[1..] == a[1..] + b;
    }
  }

  ghost function One(b: bool): nat {
    if b then 1 else 0
  }

  /** How often an entry for `k` was opened along a run. */
  ghost function Openings(start: Trace, actions: seq<Action>, k: nat): nat
    requires start.state.count > 0
  {
    if actions == [] then 0
    else
      var before := actions[..|actions| - 1];
      Openings(start, before, k) + One(k !in Run(start, before).state.entries && k in Run(start, actions).state.entries)
  }

  /** How often a failure ended the entry for `k`. */
  ghost function GivenUp(start: Trace, actions: seq<Action>, k: nat): nat
    requires start.state.count > 0
  {
    if actions == [] then 0
    else
      var before := actions[..|actions| - 1];
      GivenUp(start, before, k)
      + One(actions[|actions| - 1] == Handle(SolidifyFailure(k)) && k in Run(start, before).state.entries && k !in Run(start, actions).state.entries)
  }

  /** A step opens, ends or hands over the entry of `k` at most once; it is handed over when it ends otherwise than by a
      failure. */
  lemma StepAccounts(s: State, e: Event, k: nat)
    requires Indexed(s) && Mine(s, Subject(e))
    ensures var (t, outs) := Step(s, e);
            && About(Analytics(outs), k) == One(k in s.entries && k !in t.entries && e != SolidifyFailure(k))
            && (s.archiving ==> About(HandOvers(outs), k) == About(Analytics(outs), k))
            && t.archiving == s.archiving
  {
    StepKeepsArchiving(s, e);
    if Feeds(e) && Subject(e) in s.entries {
      var u := EntrySettles(s, e);
      if Done(u) { AboutOne(s, u, Step(s, e).1, k); }
    } else if Arrives(e) {
      ArrivalOpens(s, e);
      ArrivalEnters(s, e);
    } else if !Feeds(e) {
      OthersStayAside(s, e);
    }
  }

  lemma AboutOne(s: State, u: MilestoneData, outs: seq<Out>, k: nat)
    requires Delivered(s, u, outs) && Analytics(outs) == [InsertAnalytic(u)]
    ensures About(Analytics(outs), k) == One(u.index == k)
    ensures s.archiving ==> About(HandOvers(outs), k) == One(u.index == k)
  {
    assert [InsertAnalytic(u)][1..] == [];
    if HandOvers(outs) != [] { assert HandOvers(outs)[1..] == []; }
  }

  lemma StepKeepsArchiving(s: State, e: Event)
    requires s.count > 0
    ensures Step(s, e).0.archiving == s.archiving
  {
    if Arrives(e) && Subject(e) in s.entries {
      var d := Stored(s.entries[Subject(e)], e.message);
      PushFrame(s.(entries := s.entries[Subject(e) := if e.Message? then d else d.(milestone := Some(e.message.id))]), Subject(e));
    }
  }

  /** Main result: over any run, every entry ever opened is in progress, was given up after a failure, or was handed over,
      exactly once: to the Syncer or, if there is one, to the Archiver. */
  lemma {:induction false} RunAccounts(id: nat, count: nat, gapStart: nat, archiving: bool, actions: seq<Action>, k: nat)
    requires id < count
    requires forall i :: 0 <= i < |actions| && actions[i].Handle? ==> Subject(actions[i].event) % count == id
    ensures var start := Fresh(id, count, gapStart, archiving);
            var end := Run(start, actions);
            && Indexed(end.state) && end.state.archiving == archiving
            && Openings(start, actions, k) == One(k in end.state.entries) + GivenUp(start, actions, k) + About(Analytics(end.sent), k)
            && (archiving ==> About(HandOvers(end.sent), k) == About(Analytics(end.sent), k))
    decreases |actions|
  {
    var start := Fresh(id, count, gapStart, archiving);
    if actions != [] {
      var n := |actions| - 1;
      RunAccounts(id, count, gapStart, archiving, actions[..n], k);
      var t := Run(start, actions[..n]);
      if actions[n].Handle? {
        var e := actions[n].event;
        StepKeepsIndexed(t.state, e);
        StepAccounts(t.state, e, k);
        HandOversConcat(t.sent, Step(t.state, e).1);
        AboutConcat(HandOvers(t.sent), HandOvers(Step(t.state, e).1), k);
        AboutConcat(Analytics(t.sent), Analytics(Step(t.state, e).1), k);
      }
    }
  }

  /** No event of the run opens a milestone by its own message with no parent but the genesis. */
  ghost predicate NeverRooted(start: Trace, actions: seq<Action>)
    requires start.state.count > 0
  {
    forall n :: 0 <= n < |actions| && actions[n].Handle? ==> !Rooted(Run(start, actions[..n]).state, actions[n].event)
  }

  /** Then no entry that a run leaves behind is complete: all complete data have been handed over. */
  lemma {:induction false} RunLeavesNoneDone(id: nat, count: nat, gapStart: nat, archiving: bool, actions: seq<Action>)
    requires id < count && NeverRooted(Fresh(id, count, gapStart, archiving), actions)
    requires forall i :: 0 <= i < |actions| && actions[i].Handle? ==> Subject(actions[i].event) % count == id
    ensures NoneDone(Run(Fresh(id, count, gapStart, archiving), actions).state)
    decreases |actions|
  {
    var start := Fresh(id, count, gapStart, archiving);
    if actions != [] {
      var n := |actions| - 1;
      assert forall i :: 0 <= i < n ==> actions[..n][..i] == actions[..i];
      RunLeavesNoneDone(id, count, gapStart, archiving, actions[..n]);
      RunAccounts(id, count, gapStart, archiving, actions[..n], 0);
      if actions[n].Handle? { StepLeavesNoneDoneIff(Run(start, actions[..n]).state, actions[n].event); }
    }
  }
}
