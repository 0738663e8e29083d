/** What a Collector owes: what it pushes, persists, cleans up and requests on every event. */
module CollectorAnswers {
  import opened Types
  import So = SolidifierSpec
  import opened CollectorSpec
  import opened CollectorTruth

  // ------------------------------------------------------------------------------------------------------------
  // Metadata become known
  // ------------------------------------------------------------------------------------------------------------

  /** The event tells that milestone `ref` references message `id`: an answer of a Requester always does, metadata of the
      feed only if none are known. */
  predicate Tells(s: State, e: Event, id: MessageId, ref: nat) {
    match e
    case Fetched(_, _, Some(f)) => f.id == id && f.refMs == ref
    case Referenced(Metadata(x, Some(r))) => x == id && r == ref && id !in s.refs
    case _ => false
  }

  /** Both the message and its metadata are known. */
  predicate Complete(s: State, id: MessageId) {
    id in s.messages && id in s.refs
  }

  /** The state with the metadata noted, before they are used. */
  function Noted(s: State, id: MessageId, ref: nat): State {
    s.(ref := ref, est := if s.est < ref + 1 then ref + 1 else s.est, refs := s.refs[id := ref])
  }

  lemma ReferencedIsReference(s: State, id: MessageId, ref: nat)
    requires s.count > 0 && id !in s.refs
    ensures Step(s, Referenced(Metadata(id, Some(ref)))) == Reference(Noted(s, id, ref), id, ref)
  {
  }

  /** The parts of what new metadata make the Collector send. */
  lemma ReferenceSends(s: State, id: MessageId, ref: nat, o: Out)
    requires s.count > 0
    ensures o in Reference(s, id, ref).1 <==>
              || o in Pushed(s, id, ref) || o in Settle(s, Find(s.parked, id), id, ref)
              || o in Release(s.requesters, Remove(s.parked, id), ref).2 || o in Written(s, id, ref)
  {
    var front := Pushed(s, id, ref) + Settle(s, Find(s.parked, id), id, ref);
    var released := Release(s.requesters, Remove(s.parked, id), ref).2;
    assert o in front + released + Written(s, id, ref) <==> o in front || o in released || o in Written(s, id, ref);
  }

  /** A message that was seen before its metadata come is pushed to the Solidifier of the milestone that references it. */
  lemma SeenIsPushed(s: State, id: MessageId, ref: nat)
    requires s.count > 0 && id in s.messages && id !in s.refs
    ensures ToSolidifier(ref % s.count, So.Message(FullMessage(s.messages[id].message, id, ref)))
         in Step(s, Referenced(Metadata(id, Some(ref)))).1
  {
    var t, o := Noted(s, id, ref), ToSolidifier(ref % s.count, So.Message(FullMessage(s.messages[id].message, id, ref)));
    ReferencedIsReference(s, id, ref);
    assert o in Pushed(t, id, ref);
    ReferenceSends(t, id, ref, o);
  }

  /** A message whose metadata came before it is persisted, but not pushed: its Solidifier has to ask for it. */
  lemma LateIsNotPushed(s: State, id: MessageId, m: Message)
    requires s.count > 0 && id !in s.messages && id in s.refs
    ensures Step(s, Seen(id, m)) == (s.(messages := s.messages[id := Cached(s.est, m)]), [Persist(id, s.refs[id])])
  {
  }

  /** Whatever makes both the message and its metadata known also makes the Collector persist it. */
  lemma CompletionPersists(s: State, e: Event, id: MessageId)
    requires s.count > 0 && !Complete(s, id) && Complete(Step(s, e).0, id)
    ensures Persist(id, Step(s, e).0.refs[id]) in Step(s, e).1
  {
    if e.Referenced? && e.metadata.refMs.Some? && e.metadata.id !in s.refs {
      var ref, x := e.metadata.refMs.value, e.metadata.id;
      var t := Noted(s, x, ref);
      ReferencedIsReference(s, x, ref);
      assert Persist(id, ref) in Written(t, x, ref);
      ReferenceSends(t, x, ref, Persist(id, ref));
    }
  }

  /** Pushing comes with persisting, unless the Solidifier of new data asks for what it just missed. */
  lemma PushingPersists(s: State, e: Event, i: nat, f: FullMessage)
    requires s.count > 0 && ToSolidifier(i, So.Message(f)) in Step(s, e).1
    ensures (e.AskMessage? && !e.createdBy.Syncer?) || Persist(f.id, f.refMs) in Step(s, e).1
    ensures e.AskMessage? || i == f.refMs % s.count
  {
    var o := ToSolidifier(i, So.Message(f));
    if e.Referenced? && e.metadata.refMs.Some? && e.metadata.id !in s.refs {
      var ref, x := e.metadata.refMs.value, e.metadata.id;
      var t := Noted(s, x, ref);
      ReferencedIsReference(s, x, ref);
      ReferenceSends(t, x, ref, o);
      if o in Release(t.requesters, Remove(t.parked, x), ref).2 { ReleaseOnlyRequests(t.requesters, Remove(t.parked, x), ref, o); }
      assert Persist(x, ref) in Written(t, x, ref);
      ReferenceSends(t, x, ref, Persist(x, ref));
    }
  }

  /** The rows written under an estimate are cleaned up exactly when the estimate turns out to be wrong. */
  lemma CleansUpIff(s: State, e: Event, id: MessageId, est: nat)
    requires s.count > 0
    ensures CleanUp(id, est) in Step(s, e).1 <==>
              id in s.messages && s.messages[id].est == est && exists ref :: Tells(s, e, id, ref) && ref != est
  {
    var o := CleanUp(id, est);
    match e
    case Fetched(r, index, Some(f)) =>
      if o in Step(s, e).1 { assert Tells(s, e, f.id, f.refMs); }
    case Referenced(Metadata(x, Some(ref))) =>
      if x !in s.refs {
        var t := Noted(s, x, ref);
        ReferencedIsReference(s, x, ref);
        ReferenceSends(t, x, ref, o);
        if o in Release(t.requesters, Remove(t.parked, x), ref).2 { ReleaseOnlyRequests(t.requesters, Remove(t.parked, x), ref, o); }
        assert Tells(s, e, x, ref);
      }
    case _ =>
  }

  // ------------------------------------------------------------------------------------------------------------
  // What is remembered
  // ------------------------------------------------------------------------------------------------------------

  /** A new message is remembered under the estimate; the answer of a Requester is remembered and persisted whatever it was
      fetched for, and goes to the Solidifier that waits for it, or is closed for it; a failure is reported. */
  lemma FetchedIsKept(s: State, r: nat, index: nat, result: Option<FullMessage>)
    requires s.count > 0
    ensures var (t, outs) := Step(s, Fetched(r, index, result));
            match result
            case None => outs == [ToSolidifier(index % s.count, So.SolidifyFailure(index))] && t.messages == s.messages && t.refs == s.refs
            case Some(f) =>
              && f.id in t.messages && t.messages[f.id].est == f.refMs
              && t.messages[f.id].message == (if f.id in s.messages then s.messages[f.id].message else f.message)
              && f.id in t.refs && t.refs[f.id] == f.refMs
              && outs != []
              && outs[0] == ToSolidifier(index % s.count, if f.refMs == index then So.Message(f) else So.CloseMessage(f.id, index))
              && outs[|outs| - 1] == Persist(f.id, f.refMs)
  {
  }

  /** A message that is new is remembered under the estimate. */
  lemma SeenIsKept(s: State, id: MessageId, m: Message)
    requires s.count > 0
    ensures var (t, outs) := Step(s, Seen(id, m));
            && t == (if id in s.messages then s else s.(messages := s.messages[id := Cached(s.est, m)]))
            && outs == if id !in s.messages && id in s.refs then [Persist(id, s.refs[id])] else []
  {
  }

  /** The milestone heard of last: from an answer, from metadata, or from the Syncer when it gets what it asks for. */
  lemma LatestReference(s: State, e: Event)
    requires s.count > 0
    ensures Step(s, e).0.ref ==
              match e
              case Fetched(_, _, Some(f)) => f.refMs
              case Referenced(Metadata(_, Some(ref))) => ref
              case AskMessage(_, index, id, Syncer) => if Complete(s, id) && s.refs[id] == index then index else s.ref
              case _ => s.ref
  {
    if e.Referenced? && e.metadata.refMs.Some? && e.metadata.id !in s.refs {
      ReferencedIsReference(s, e.metadata.id, e.metadata.refMs.value);
    }
  }

  /** Rows are written under that milestone, but for a message of the feed whose metadata came before it. */
  lemma PersistsUnderLatest(s: State, e: Event, id: MessageId, index: nat)
    requires s.count > 0 && !e.Seen? && Persist(id, index) in Step(s, e).1
    ensures index == Step(s, e).0.ref
  {
    if e.Referenced? && e.metadata.refMs.Some? && e.metadata.id !in s.refs {
      var x, ref := e.metadata.id, e.metadata.refMs.value;
      ReferencedIsReference(s, x, ref);
      ReferencePersists(Noted(s, x, ref), x, ref, Persist(id, index));
    }
  }

  /** The estimate is always beyond every milestone that is known to be referenced by the feed, and never falls. */
  lemma EstimateGrows(s: State, e: Event)
    requires s.count > 0
    ensures Step(s, e).0.est == if e.Referenced? && e.metadata.refMs.Some? && e.metadata.refMs.value >= s.est
                                then e.metadata.refMs.value + 1 else s.est
  {
    if e.Referenced? && e.metadata.refMs.Some? && e.metadata.id !in s.refs {
      ReferencedIsReference(s, e.metadata.id, e.metadata.refMs.value);
    }
  }

  /** What is known stays known, until a cache forgets it. */
  lemma StepKeepsKnown(s: State, e: Event, id: MessageId)
    requires s.count > 0
    ensures id in s.messages ==> id in Step(s, e).0.messages && Step(s, e).0.messages[id].message == s.messages[id].message
    ensures id in s.refs ==> id in Step(s, e).0.refs
    ensures e.Seen? ==> e.id in Step(s, e).0.messages
    ensures e.Referenced? && e.metadata.refMs.Some? ==> e.metadata.id in Step(s, e).0.refs
    ensures Step(s, e).0.count == s.count
  {
    if e.Referenced? && e.metadata.refMs.Some? && e.metadata.id !in s.refs {
      ReferencedIsReference(s, e.metadata.id, e.metadata.refMs.value);
    }
  }

  // ------------------------------------------------------------------------------------------------------------
  // Every run
  // ------------------------------------------------------------------------------------------------------------

  /** The state after a run. */
  function End(s: State, actions: seq<Action>): State
    requires s.count > 0
    decreases |actions|
  {
    if actions == [] then s
    else if Next(s, actions[0]).0.count > 0 then End(Next(s, actions[0]).0, actions[1..])
    else Next(s, actions[0]).0
  }

  /** The caches do not forget the message or its metadata. */
  predicate Remembers(actions: seq<Action>, id: MessageId) {
    forall i :: 0 <= i < |actions| && actions[i].Evict? ==> id !in actions[i].messages && id !in actions[i].refs
  }

  /** The message was seen, or its metadata came. */
  ghost predicate WasSeen(actions: seq<Action>, id: MessageId) {
    exists i :: 0 <= i < |actions| && actions[i].Handle? && actions[i].event.Seen? && actions[i].event.id == id
  }

  ghost predicate WasReferenced(actions: seq<Action>, id: MessageId) {
    exists i :: 0 <= i < |actions| && IsReferenced(actions[i], id)
  }

  predicate IsReferenced(a: Action, id: MessageId) {
    a.Handle? && a.event.Referenced? && a.event.metadata.id == id && a.event.metadata.refMs.Some?
  }

  lemma NextKeepsKnown(s: State, a: Action, id: MessageId)
    requires s.count > 0 && (a.Evict? ==> id !in a.messages && id !in a.refs)
    ensures var t := Next(s, a).0;
            && t.count == s.count
            && (id in s.messages || (a.Handle? && a.event.Seen? && a.event.id == id) ==> id in t.messages)
            && (id in s.refs || IsReferenced(a, id) ==> id in t.refs)
  {
    if a.Handle? { StepKeepsKnown(s, a.event, id); }
  }

  lemma {:induction false} RunKnows(s: State, actions: seq<Action>, id: MessageId)
    requires s.count > 0 && Remembers(actions, id)
    ensures id in s.messages || WasSeen(actions, id) ==> id in End(s, actions).messages
    ensures id in s.refs || WasReferenced(actions, id) ==> id in End(s, actions).refs
    decreases |actions|
  {
    if actions != [] {
      var rest := actions[1..];
      NextKeepsKnown(s, actions[0], id);
      RunKnows(Next(s, actions[0]).0, rest, id);
      if WasSeen(actions, id) {
        var i :| 0 <= i < |actions| && actions[i].Handle? && actions[i].event.Seen? && actions[i].event.id == id;
        if i > 0 { assert rest[i - 1] == actions[i]; }
      }
      if WasReferenced(actions, id) {
        var i :| 0 <= i < |actions| && IsReferenced(actions[i], id);
        if i > 0 { assert rest[i - 1] == actions[i]; }
      }
    }
  }

  lemma {:induction false} RunPersists(truth: Truth, s: State, actions: seq<Action>, id: MessageId)
    requires Honest(truth, s) && GenuineRun(truth, actions)
    requires !Complete(s, id) && Complete(End(s, actions), id)
    ensures Persist(id, truth(id)) in Sent(s, actions)
    decreases |actions|
  {
    var a, t := actions[0], Next(s, actions[0]).0;
    NextStaysHonest(truth, s, a);
    if Complete(t, id) {
      CompletionPersists(s, a.event, id);
    } else {
      RunPersists(truth, t, actions[1..], id);
    }
  }

  /** Main result: a message that was seen and whose metadata came, in whatever order and with whatever in between, is
      persisted for the milestone that references it, if the caches do not forget it. */
  lemma KnownMessageIsPersisted(truth: Truth, s: State, actions: seq<Action>, id: MessageId)
    requires Honest(truth, s) && GenuineRun(truth, actions) && Remembers(actions, id)
    requires id !in s.messages && WasSeen(actions, id) && WasReferenced(actions, id)
    ensures Persist(id, truth(id)) in Sent(s, actions)
  {
    RunKnows(s, actions, id);
    RunPersists(truth, s, actions, id);
  }

  // ------------------------------------------------------------------------------------------------------------
  // Parked asks
  // ------------------------------------------------------------------------------------------------------------

  lemma {:induction false} ReleasesBelow(hs: seq<Handle>, ps: seq<Parked>, below: nat, p: Parked)
    requires hs != [] && p in ps
    ensures p in Release(hs, ps, below).1 <==> p.index >= below
    ensures p.index < below ==> exists r :: Request(r, TheMessage(p.id), p.index) in Release(hs, ps, below).2
    decreases |ps|
  {
    var now := if ps[0].index < below then Ask(hs, TheMessage(ps[0].id), ps[0].index).0 else hs;
    var asked := if ps[0].index < below then Ask(hs, TheMessage(ps[0].id), ps[0].index).1 else [];
    if p in ps[1..] {
      ReleasesBelow(now, ps[1..], below, p);
      if p.index < below {
        var r :| Request(r, TheMessage(p.id), p.index) in Release(now, ps[1..], below).2;
        assert Request(r, TheMessage(p.id), p.index) in Release(hs, ps, below).2;
      }
    } else {
      if p.index < below {
        assert asked[0] in Release(hs, ps, below).2;
        if p in Release(now, ps[1..], below).1 { ReleaseKeepsHonest(now, ps[1..], below, p); }
      } else {
        assert p in Release(hs, ps, below).1;
      }
    }
  }

  lemma {:induction false} ReleasesOnly(hs: seq<Handle>, ps: seq<Parked>, below: nat, r: nat, target: Target, index: nat)
    requires Request(r, target, index) in Release(hs, ps, below).2
    ensures index < below && target.TheMessage? && exists p :: p in ps && p.id == target.id && p.index == index
    decreases |ps|
  {
    if ps[0].index < below {
      var (now, asked) := Ask(hs, TheMessage(ps[0].id), ps[0].index);
      if Request(r, target, index) in asked {
        assert ps[0] in ps;
      } else {
        ReleasesOnly(now, ps[1..], below, r, target, index);
      }
    } else {
      ReleasesOnly(hs, ps[1..], below, r, target, index);
    }
  }

  /** New metadata of milestone `ref` release exactly the parked asks of older milestones: each is requested, nothing else is,
      and the others stay parked. */
  lemma MetadataRelease(s: State, id: MessageId, ref: nat, p: Parked)
    requires s.count > 0 && s.requesters != [] && id !in s.refs && p in s.parked
    ensures var (t, outs) := Step(s, Referenced(Metadata(id, Some(ref))));
            && (p in t.parked <==> p.id != id && p.index >= ref)
            && (p.id != id && p.index < ref ==> exists r :: Request(r, TheMessage(p.id), p.index) in outs)
  {
    var t := Noted(s, id, ref);
    ReferencedIsReference(s, id, ref);
    if p.id != id {
      ReleasesBelow(t.requesters, Remove(t.parked, id), ref, p);
      if p.index < ref {
        var r :| Request(r, TheMessage(p.id), p.index) in Release(t.requesters, Remove(t.parked, id), ref).2;
        ReferenceSends(t, id, ref, Request(r, TheMessage(p.id), p.index));
      }
    } else if p in Reference(t, id, ref).0.parked {
      ReleaseKeepsHonest(t.requesters, Remove(t.parked, id), ref, p);
    }
  }

  lemma MetadataRequestOnly(s: State, id: MessageId, ref: nat, r: nat, target: Target, index: nat)
    requires s.count > 0 && id !in s.refs && Request(r, target, index) in Step(s, Referenced(Metadata(id, Some(ref)))).1
    ensures index < ref && target.TheMessage? && target.id != id && exists p :: p in s.parked && p.id == target.id && p.index == index
  {
    var t := Noted(s, id, ref);
    ReferencedIsReference(s, id, ref);
    ReferenceSends(t, id, ref, Request(r, target, index));
    ReleasesOnly(t.requesters, Remove(t.parked, id), ref, r, target, index);
  }

  // ------------------------------------------------------------------------------------------------------------
  // Asks
  // ------------------------------------------------------------------------------------------------------------

  /** The ask can wait for the feed: the message is there, its metadata are not, and the milestone is recent. */
  predicate CanWait(s: State, index: nat, id: MessageId) {
    id in s.messages && id !in s.refs && s.est != 0 && index + 1 >= s.est
  }

  /** An ask is answered at once, parked, or forwarded: the message goes to the Solidifier that asks if its milestone
      references it, and is persisted for the Syncer; it is closed if another one does; it waits for the feed if that can
      bring the metadata; and else it is requested once, from one of the Requesters. */
  lemma AskIsAnswered(s: State, solidifier: nat, index: nat, id: MessageId, createdBy: CreatedBy)
    requires s.count > 0 && s.requesters != []
    ensures var (t, outs) := Step(s, AskMessage(solidifier, index, id, createdBy));
            && t.messages == s.messages && t.refs == s.refs
            && (Complete(s, id) ==>
                 && t.parked == s.parked
                 && outs == (if s.refs[id] != index then [ToSolidifier(solidifier, So.CloseMessage(id, index))]
                             else [ToSolidifier(solidifier, So.Message(FullMessage(s.messages[id].message, id, index)))]
                                  + if createdBy.Syncer? then [Persist(id, index)] else []))
            && (!Complete(s, id) && !CanWait(s, index, id) ==>
                 t.parked == s.parked && exists r: nat :: outs == [Request(r, TheMessage(id), index)])
            && (CanWait(s, index, id) ==> exists p :: p in t.parked && p.id == id && p.index <= index)
  {
    var (t, outs) := Step(s, AskMessage(solidifier, index, id, createdBy));
    if CanWait(s, index, id) {
      WaitingIsParked(s, solidifier, index, id);
    } else if !Complete(s, id) {
      assert outs == [Request(s.requesters[Least(s.requesters)].id, TheMessage(id), index)];
    }
  }

  /** Of two milestones that wait for the same message the older one stays parked, and the other one is closed. */
  lemma WaitingIsParked(s: State, solidifier: nat, index: nat, id: MessageId)
    requires s.count > 0 && id in s.messages
    ensures var (t, outs) := ParkAsk(s, solidifier, index, id);
            && (exists p :: p in t.parked && p.id == id && p.index <= index)
            && (forall q :: q in s.parked && q.id != id ==> q in t.parked)
            && match Find(s.parked, id)
               case None => outs == [] && Parked(id, index, s.messages[id].message) in t.parked
               case Some(q) =>
                 if q.index < index then t == s && outs == [ToSolidifier(solidifier, So.CloseMessage(id, index))]
                 else q.(index := index) in t.parked && outs == [ToSolidifier(q.index % s.count, So.CloseMessage(id, q.index))]
  {
    var (t, outs) := ParkAsk(s, solidifier, index, id);
    var parked := Find(s.parked, id);
    if parked.None? {
      assert t.parked[|s.parked|] == Parked(id, index, s.messages[id].message);
    } else if parked.value.index < index {
      assert parked.value in t.parked;
    } else {
      var kept := Remove(s.parked, id);
      assert t.parked[|kept|] == parked.value.(index := index);
      forall q | q in s.parked && q.id != id
        ensures q in t.parked
      {
        assert q in kept;
      }
    }
  }

  /** An ask for a milestone's own message is forwarded once. */
  lemma MilestoneAskIsForwarded(s: State, index: nat)
    requires s.count > 0 && s.requesters != []
    ensures exists r: nat :: Step(s, AskMilestone(index)).1 == [Request(r, TheMilestone, index)]
  {
    assert Step(s, AskMilestone(index)).1 == [Request(s.requesters[Least(s.requesters)].id, TheMilestone, index)];
  }
}
