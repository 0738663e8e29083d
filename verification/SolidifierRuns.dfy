/** Whole runs of one Solidifier: any events in any order, and caches that forget at any time. */
module SolidifierRuns {
  import opened Types
  import opened SolidifierSpec
  import opened SolidifierProofs
  import opened SolidifierCones
  import opened SolidifierRows

  datatype Action = Handle(event: Event) | Evict(unreachable: set<nat>, inDatabase: set<nat>)

  /** A state with its past: the events seen, everything sent, and for every index how often an arriving message opened
      an entry for it. */
  datatype Trace = Trace(state: State, seen: seq<Event>, sent: seq<Out>, turns: multiset<nat>)

  ghost function Fresh(id: nat, count: nat, gapStart: nat, archiving: bool): Trace {
    Trace(Init(id, count, gapStart, archiving), [], [], multiset{})
  }

  ghost function ClosesIn(seen: seq<Event>): Closes {
    set e | e in seen && e.CloseMessage? :: (e.id, e.index)
  }

  ghost function Next(t: Trace, a: Action): Trace
    requires t.state.count > 0
  {
    match a
    case Evict(u, d) => t.(state := Forget(t.state, u, d))
    case Handle(e) =>
      var (s, outs) := Step(t.state, e);
      Trace(s, t.seen + [e], t.sent + outs,
            if Arrives(e) then t.turns + multiset(s.entries.Keys - t.state.entries.Keys) else t.turns)
  }

  /** The event reaches the Solidifier it belongs to, and its message is part of the tangle. */
  ghost predicate Proper(tangle: Tangle, id: nat, count: nat, a: Action)
    requires count > 0
  {
    a.Handle? ==> Subject(a.event) % count == id && GenuineEvent(tangle, a.event)
  }

  /** Exactly the members of the residue class between the first and the next expected milestone were opened by arriving
      messages, each once. */
  ghost predicate TurnsOnce(t: Trace)
    requires t.state.count > 0
  {
    forall x: nat :: t.turns[x] == if Window(t.state, x) then 1 else 0
  }

  ghost predicate SentWhole(tangle: Tangle, sent: seq<Out>, closes: Closes) {
    forall i :: 0 <= i < |sent| ==> WholeOut(tangle, sent[i], closes)
  }

  ghost predicate GoodClass(t: Trace) {
    Indexed(t.state) && TurnsOnce(t)
  }

  ghost predicate GoodCones(tangle: Tangle, t: Trace) {
    Cones(tangle, t.state, ClosesIn(t.seen)) && SentWhole(tangle, t.sent, ClosesIn(t.seen))
  }

  ghost predicate GoodRows(t: Trace) {
    AllBacked(t.state, t.seen, t.sent) && RowsDue(t.sent, t.seen, t.sent)
  }

  ghost predicate Good(tangle: Tangle, t: Trace) {
    GoodClass(t) && GoodCones(tangle, t) && GoodRows(t)
  }

  lemma ClosesGrow(seen: seq<Event>, e: Event)
    ensures ClosesIn(seen + [e]) == ClosesAfter(ClosesIn(seen), e)
  {
    forall c
      ensures c in ClosesIn(seen + [e]) <==> c in ClosesAfter(ClosesIn(seen), e)
    {
      if c in ClosesIn(seen) {
        assert CloseMessage(c.0, c.1) in seen + [e];
      }
      if e.CloseMessage? && c == (e.id, e.index) {
        assert e in seen + [e];
      }
    }
  }

  lemma WholeLater(tangle: Tangle, o: Out, closes: Closes, more: Closes)
    requires WholeOut(tangle, o, closes) && closes <= more
    ensures WholeOut(tangle, o, more)
  {
    forall d | Delivers(o, d)
      ensures Whole(tangle, d, more)
    {
      MoreCloses(tangle, d, closes, more);
    }
  }

  lemma SentWholeLater(tangle: Tangle, sent: seq<Out>, closes: Closes, outs: seq<Out>, more: Closes)
    requires SentWhole(tangle, sent, closes) && closes <= more && SentWhole(tangle, outs, more)
    ensures SentWhole(tangle, sent + outs, more)
  {
    forall i | 0 <= i < |sent|
      ensures WholeOut(tangle, sent[i], more)
    {
      WholeLater(tangle, sent[i], closes, more);
    }
  }

  lemma StepKeepsGoodCones(tangle: Tangle, t: Trace, e: Event)
    requires t.state.count > 0 && GenuineEvent(tangle, e) && GoodCones(tangle, t)
    ensures GoodCones(tangle, Next(t, Handle(e)))
  {
    var closes := ClosesIn(t.seen);
    ClosesGrow(t.seen, e);
    StepKeepsCones(tangle, t.state, e, closes);
    SentWholeLater(tangle, t.sent, closes, Step(t.state, e).1, ClosesAfter(closes, e));
  }

  lemma RowsDueEarlier(sent: seq<Out>, seen: seq<Event>, e: Event, outs: seq<Out>)
    requires RowsDue(sent, seen, sent)
    ensures RowsDue(sent, seen + [e], sent + outs)
  {
    forall m | InsertSync(m) in sent
      ensures RowDue(m, seen + [e], sent + outs)
    {
      var d, ids :| Due(m, d, ids, seen, sent);
      assert Due(m, d, ids, seen + [e], sent + outs);
    }
  }

  lemma StepKeepsRows(t: Trace, e: Event)
    requires Indexed(t.state) && GoodRows(t)
    ensures GoodRows(Next(t, Handle(e)))
  {
    StepAdvances(t.state, e, t.seen, t.sent);
    RowsDueEarlier(t.sent, t.seen, e, Step(t.state, e).1);
  }

  /** The state moves on within the residue class. */
  ghost predicate Forward(s: State, u: State) {
    s.expected <= u.expected && (s.first.Some? ==> u.first == s.first)
  }

  lemma StepKeepsClass(t: Trace, e: Event)
    requires GoodClass(t) && Mine(t.state, Subject(e))
    ensures var u := Next(t, Handle(e)); GoodClass(u) && Forward(t.state, u.state)
  {
    if !Arrives(e) {
      QuietKeepsClass(t, e);
    } else if Subject(e) in t.state.entries {
      StoreKeepsClass(t, e);
    } else {
      ArrivalOpens(t.state, e);
      TurnsAdd(t, Step(t.state, e).0);
    }
  }

  /** Events that open no entry in turn: the residue class has the same members as before. */
  lemma TouchKeepsClass(t: Trace, u: State, index: nat)
    requires GoodClass(t) && Touches(t.state, u, index)
    requires index in u.entries || index in u.unreachable ==> Mine(t.state, index) && index < t.state.expected
    ensures Indexed(u) && Forward(t.state, u)
    ensures forall x: nat :: t.turns[x] == if Window(u, x) then 1 else 0
  {
    TouchKeepsIndexed(t.state, u, index);
    forall x: nat
      ensures t.turns[x] == if Window(u, x) then 1 else 0
    {
      assert Window(u, x) <==> Window(t.state, x);
    }
  }

  lemma QuietKeepsClass(t: Trace, e: Event)
    requires GoodClass(t) && Mine(t.state, Subject(e)) && !Arrives(e)
    ensures var u := Next(t, Handle(e)); GoodClass(u) && Forward(t.state, u.state)
  {
    var s, u := t.state, Step(t.state, e).0;
    match e
    case CloseMessage(id, index) =>
      CloseTouches(s, id, index);
      TouchKeepsClass(t, u, index);
    case Solidify(index) =>
      SolidifyTouches(s, index);
      TouchKeepsClass(t, u, index);
    case SolidifyFailure(index) =>
      FailureTouches(s, index);
      TouchKeepsClass(t, u, index);
    case _ =>
  }

  lemma StoreKeepsClass(t: Trace, e: Event)
    requires GoodClass(t) && Mine(t.state, Subject(e)) && Arrives(e) && Subject(e) in t.state.entries
    ensures var u := Next(t, Handle(e)); GoodClass(u) && Forward(t.state, u.state)
  {
    var u := Step(t.state, e).0;
    StoreTouches(t.state, e);
    TouchKeepsClass(t, u, Subject(e));
    assert u.entries.Keys - t.state.entries.Keys == {};
  }

  lemma TurnsAdd(t: Trace, u: State)
    requires t.state.count > 0 && TurnsOnce(t)
    requires u.count == t.state.count && u.id == t.state.id && t.state.expected <= u.expected
    requires t.state.first.Some? ==> u.first == t.state.first
    requires forall x :: x in u.entries && x !in t.state.entries <==> Window(u, x) && !Window(t.state, x)
    ensures TurnsOnce(t.(state := u, turns := t.turns + multiset(u.entries.Keys - t.state.entries.Keys)))
  {
    var created: multiset<nat> := multiset(u.entries.Keys - t.state.entries.Keys);
    forall x: nat
      ensures created[x] == if Window(u, x) && !Window(t.state, x) then 1 else 0
    {
    }
  }

  lemma EvictKeepsGood(tangle: Tangle, t: Trace, a: Action)
    requires Good(tangle, t) && a.Evict?
    ensures Good(tangle, Next(t, a))
  {
    assert GoodClass(Next(t, a));
  }

  lemma NextKeepsGood(tangle: Tangle, t: Trace, a: Action)
    requires Good(tangle, t) && Proper(tangle, t.state.id, t.state.count, a)
    ensures Good(tangle, Next(t, a))
  {
    if a.Handle? {
      StepKeepsClass(t, a.event);
      StepKeepsGoodCones(tangle, t, a.event);
      StepKeepsRows(t, a.event);
    } else {
      EvictKeepsGood(tangle, t, a);
    }
  }

  /** The next expected milestone never decreases, and the first one stays. */
  lemma NextMovesForward(t: Trace, a: Action)
    requires GoodClass(t) && (a.Handle? ==> Mine(t.state, Subject(a.event)))
    ensures Forward(t.state, Next(t, a).state)
  {
    if a.Handle? {
      StepKeepsClass(t, a.event);
    }
  }

  lemma NextKeepsId(t: Trace, a: Action)
    requires t.state.count > 0
    ensures Next(t, a).state.id == t.state.id && Next(t, a).state.count == t.state.count
  {
    if a.Handle? && Arrives(a.event) && Subject(a.event) in t.state.entries {
      var s, e := t.state, a.event;
      var d := Stored(s.entries[Subject(e)], e.message);
      var stored := if e.Message? then d else d.(milestone := Some(e.message.id));
      PushFrame(s.(entries := s.entries[Subject(e) := stored]), Subject(e));
    }
  }

  /** The trace after a list of actions. */
  ghost function Run(start: Trace, actions: seq<Action>): (t: Trace)
    requires start.state.count > 0
    ensures t.state.id == start.state.id && t.state.count == start.state.count
  {
    if actions == [] then start
    else
      var before := Run(start, actions[..|actions| - 1]);
      NextKeepsId(before, actions[|actions| - 1]);
      Next(before, actions[|actions| - 1])
  }

  /** Main result: after any run of a Solidifier every member of its residue class has had exactly one entry opened for
      it in turn, all data it handed over are whole cones, and every sync row it wrote was due. */
  lemma {:induction false} RunKeepsGood(tangle: Tangle, id: nat, count: nat, gapStart: nat, archiving: bool, actions: seq<Action>)
    requires id < count
    requires forall i :: 0 <= i < |actions| ==> Proper(tangle, id, count, actions[i])
    ensures Good(tangle, Run(Fresh(id, count, gapStart, archiving), actions))
    decreases |actions|
  {
    var start := Fresh(id, count, gapStart, archiving);
    if actions != [] {
      var before := actions[..|actions| - 1];
      RunKeepsGood(tangle, id, count, gapStart, archiving, before);
      NextKeepsGood(tangle, Run(start, before), actions[|actions| - 1]);
    }
  }
}
