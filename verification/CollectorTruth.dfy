/** Whether a Collector that closes a message for a milestone tells the truth: that another milestone references it. */
module CollectorTruth {
  import opened Types
  import So = SolidifierSpec
  import opened CollectorSpec

  /** The milestone that references each message. */
  type Truth = MessageId -> nat

  /** Metadata name the milestone that references the message, and a milestone asks only for messages in its own past, which
      no later milestone references. */
  ghost predicate Genuine(truth: Truth, e: Event) {
    match e
    case Fetched(_, _, result) => result.Some? ==> result.value.refMs == truth(result.value.id)
    case Referenced(metadata) => metadata.refMs.Some? ==> metadata.refMs.value == truth(metadata.id)
    case AskMessage(_, index, id, _) => truth(id) <= index
    case _ => true
  }

  /** The metadata kept are right, and a message is parked only for milestones that reference it or come later. */
  ghost predicate Honest(truth: Truth, s: State) {
    && s.count > 0
    && (forall id :: id in s.refs ==> s.refs[id] == truth(id))
    && (forall p :: p in s.parked ==> truth(p.id) <= p.index)
  }

  /** A message is closed for another milestone than the one that references it. */
  ghost predicate True(truth: Truth, o: Out) {
    o.ToSolidifier? && o.event.CloseMessage? ==> truth(o.event.id) != o.event.index
  }

  ghost predicate AllTrue(truth: Truth, outs: seq<Out>) {
    forall o :: o in outs ==> True(truth, o)
  }

  /** A second ask for a message that is parked for the very milestone that asks, and that references it. */
  ghost predicate AsksAgain(truth: Truth, s: State, e: Event) {
    && e.AskMessage? && e.id in s.messages && e.id !in s.refs && s.est != 0 && e.index >= s.est - 1
    && Find(s.parked, e.id).Some? && Find(s.parked, e.id).value.index == e.index == truth(e.id)
  }

  // ------------------------------------------------------------------------------------------------------------
  // Parked asks
  // ------------------------------------------------------------------------------------------------------------

  lemma {:induction false} ReleaseKeepsHonest(hs: seq<Handle>, ps: seq<Parked>, below: nat, p: Parked)
    requires p in Release(hs, ps, below).1
    ensures p in ps
    decreases |ps|
  {
    if ps[0].index < below {
      ReleaseKeepsHonest(Ask(hs, TheMessage(ps[0].id), ps[0].index).0, ps[1..], below, p);
    } else if p != ps[0] {
      ReleaseKeepsHonest(hs, ps[1..], below, p);
    }
  }

  lemma ReferenceStaysHonest(truth: Truth, s: State, id: MessageId)
    requires Honest(truth, s)
    ensures Honest(truth, Reference(s, id, truth(id)).0)
  {
    forall p | p in Reference(s, id, truth(id)).0.parked
      ensures truth(p.id) <= p.index
    {
      ReleaseKeepsHonest(s.requesters, Remove(s.parked, id), truth(id), p);
    }
  }

  lemma ReferenceIsTrue(truth: Truth, s: State, id: MessageId)
    requires s.count > 0
    ensures AllTrue(truth, Reference(s, id, truth(id)).1)
  {
    var pushed, settled := Pushed(s, id, truth(id)), Settle(s, Find(s.parked, id), id, truth(id));
    var released := Release(s.requesters, Remove(s.parked, id), truth(id)).2;
    forall o | o in pushed + settled + released + Written(s, id, truth(id))
      ensures True(truth, o)
    {
      if o in released { ReleaseOnlyRequests(s.requesters, Remove(s.parked, id), truth(id), o); }
    }
  }

  /** A close for the ask that is given up: true unless both asks are of the milestone that references the message. */
  lemma ParkIsTrueIff(truth: Truth, s: State, solidifier: nat, index: nat, id: MessageId)
    requires Honest(truth, s) && id in s.messages && truth(id) <= index
    ensures Honest(truth, ParkAsk(s, solidifier, index, id).0)
    ensures AllTrue(truth, ParkAsk(s, solidifier, index, id).1)
       <==> !(Find(s.parked, id).Some? && Find(s.parked, id).value.index == index == truth(id))
  {
    var parked, outs := Find(s.parked, id), ParkAsk(s, solidifier, index, id).1;
    if parked.Some? {
      assert parked.value in s.parked;
      assert outs[0] in outs;
    }
  }

  // ------------------------------------------------------------------------------------------------------------
  // Every event, every run
  // ------------------------------------------------------------------------------------------------------------

  lemma StepStaysHonest(truth: Truth, s: State, e: Event)
    requires Honest(truth, s) && Genuine(truth, e)
    ensures Honest(truth, Step(s, e).0)
  {
    match e
    case Referenced(metadata) =>
      if metadata.refMs.Some? && metadata.id !in s.refs {
        var ref := metadata.refMs.value;
        var t := s.(ref := ref, est := if s.est < ref + 1 then ref + 1 else s.est, refs := s.refs[metadata.id := ref]);
        ReferenceStaysHonest(truth, t, metadata.id);
      }
    case AskMessage(solidifier, index, id, createdBy) =>
      if id in s.messages && id !in s.refs && s.est != 0 && index >= s.est - 1 { ParkIsTrueIff(truth, s, solidifier, index, id); }
    case _ =>
  }

  /** Exactly when a Collector closes a message for the milestone that references it: on a second ask of that milestone
      while the first is parked. */
  lemma ClosesAreTrueIff(truth: Truth, s: State, e: Event)
    requires Honest(truth, s) && Genuine(truth, e)
    ensures AllTrue(truth, Step(s, e).1) <==> !AsksAgain(truth, s, e)
  {
    match e
    case Referenced(metadata) =>
      if metadata.refMs.Some? && metadata.id !in s.refs {
        var ref := metadata.refMs.value;
        var t := s.(ref := ref, est := if s.est < ref + 1 then ref + 1 else s.est, refs := s.refs[metadata.id := ref]);
        ReferenceIsTrue(truth, t, metadata.id);
      }
    case AskMessage(solidifier, index, id, createdBy) =>
      if id in s.messages && id !in s.refs && s.est != 0 && index >= s.est - 1 { ParkIsTrueIff(truth, s, solidifier, index, id); }
    case _ =>
  }

  /** A message is stored, and counted by a Solidifier, only under the milestone that references it. */
  lemma PersistedBelongs(truth: Truth, s: State, e: Event, id: MessageId, index: nat)
    requires Honest(truth, s) && Genuine(truth, e) && Persist(id, index) in Step(s, e).1
    ensures truth(id) == index
  {
    StepStaysHonest(truth, s, e);
    PersistsUnderReference(s, e, id, index);
  }

  /** What happens to a Collector: an event, or its caches forget. */
  datatype Action = Handle(event: Event) | Evict(messages: set<MessageId>, refs: set<MessageId>)

  function Next(s: State, a: Action): (State, seq<Out>)
    requires s.count > 0
  {
    match a
    case Handle(e) => Step(s, e)
    case Evict(messages, refs) => (Forget(s, messages, refs), [])
  }

  ghost predicate GenuineRun(truth: Truth, actions: seq<Action>) {
    forall i :: 0 <= i < |actions| && actions[i].Handle? ==> Genuine(truth, actions[i].event)
  }

  /** All that a run sends. */
  function Sent(s: State, actions: seq<Action>): seq<Out>
    requires s.count > 0
    decreases |actions|
  {
    if actions == [] then [] else Next(s, actions[0]).1 + (if Next(s, actions[0]).0.count > 0 then Sent(Next(s, actions[0]).0, actions[1..]) else [])
  }

  /** Somewhere in the run a milestone asks again for a message that is parked for it, and that it references. */
  ghost predicate SomeAskAgain(truth: Truth, s: State, actions: seq<Action>)
    requires s.count > 0
    decreases |actions|
  {
    actions != [] &&
    (|| (actions[0].Handle? && AsksAgain(truth, s, actions[0].event))
     || (Next(s, actions[0]).0.count > 0 && SomeAskAgain(truth, Next(s, actions[0]).0, actions[1..])))
  }

  lemma NextStaysHonest(truth: Truth, s: State, a: Action)
    requires Honest(truth, s) && (a.Handle? ==> Genuine(truth, a.event))
    ensures Honest(truth, Next(s, a).0)
  {
    if a.Handle? { StepStaysHonest(truth, s, a.event); }
  }

  /** Main result: over any run, whatever the caches forget, every close is true exactly when no milestone asks twice for a
      message it references while its first ask is parked. */
  lemma {:induction false} AllClosesTrueIff(truth: Truth, s: State, actions: seq<Action>)
    requires Honest(truth, s) && GenuineRun(truth, actions)
    ensures AllTrue(truth, Sent(s, actions)) <==> !SomeAskAgain(truth, s, actions)
    decreases |actions|
  {
    if actions != [] {
      var a, t := actions[0], Next(s, actions[0]).0;
      NextStaysHonest(truth, s, a);
      if a.Handle? { ClosesAreTrueIff(truth, s, a.event); }
      AllClosesTrueIff(truth, t, actions[1..]);
      var now, later := Next(s, a).1, Sent(t, actions[1..]);
      assert forall o :: o in now + later <==> o in now || o in later;
    }
  }
}
