/** What a Solidifier hands over: the whole cone of messages below a milestone. */
module SolidifierCones {
  import opened Types
  import opened SolidifierSpec
  import opened SolidifierProofs

  /** The parents of every message of the tangle. */
  type Tangle = MessageId -> seq<MessageId>

  /** Close events seen so far: the message, and the milestone it need not be collected for. */
  type Closes = set<(MessageId, nat)>

  ghost predicate Genuine(tangle: Tangle, m: FullMessage) {
    m.message.parents == tangle(m.id)
  }

  ghost predicate GenuineEvent(tangle: Tangle, e: Event) {
    Arrives(e) ==> Genuine(tangle, e.message)
  }

  /** `p` needs no further ask: it is here, on its way, closed for this milestone, or the genesis. */
  ghost predicate Held(d: MilestoneData, p: MessageId, closes: Closes) {
    p in d.messages || p in d.pending || (p, d.index) in closes || p == NULL_ID
  }

  /** Every parent of a collected message is held, and the milestone's own message is among the collected ones. */
  ghost predicate Sound(tangle: Tangle, d: MilestoneData, closes: Closes) {
    && (forall id :: id in d.messages ==> d.messages[id].id == id && Genuine(tangle, d.messages[id]))
    && (forall id, p :: id in d.messages && p in tangle(id) ==> Held(d, p, closes))
    && (d.milestone.Some? ==> d.milestone.value in d.messages)
  }

  /** A completed collection. */
  ghost predicate Whole(tangle: Tangle, d: MilestoneData, closes: Closes) {
    Sound(tangle, d, closes) && d.Completed()
  }

  ghost predicate Cones(tangle: Tangle, s: State, closes: Closes) {
    forall k :: k in s.entries ==> s.entries[k].index == k && Sound(tangle, s.entries[k], closes)
  }

  ghost function ClosesAfter(closes: Closes, e: Event): Closes {
    if e.CloseMessage? then closes + {(e.id, e.index)} else closes
  }

  /** Milestone data leaving the Solidifier. */
  ghost predicate Delivers(o: Out, d: MilestoneData) {
    o == ToSyncer(Collected(d)) || o == ToArchiver(Data(d, None))
  }

  // ------------------------------------------------------------------------------------------------------------
  // Storing a message
  // ------------------------------------------------------------------------------------------------------------

  lemma StoredIsSound(tangle: Tangle, d: MilestoneData, m: FullMessage, closes: Closes)
    requires Sound(tangle, d.(milestone := None), closes) && Genuine(tangle, m)
    requires d.milestone.Some? ==> d.milestone.value in d.messages || d.milestone.value == m.id
    ensures Sound(tangle, Stored(d, m), closes)
  {
    var t, before := Stored(d, m), d.(milestone := None);
    forall id, p | id in t.messages && p in tangle(id)
      ensures Held(t, p, closes)
    {
      if id == m.id {
        MissingIds(m.message.parents, Known(d), p);
      } else {
        assert Held(before, p, closes);
      }
    }
  }

  lemma SoundUnnamed(tangle: Tangle, d: MilestoneData, closes: Closes)
    requires Sound(tangle, d, closes)
    ensures Sound(tangle, d.(milestone := None), closes)
  {
    forall id, p | id in d.messages && p in tangle(id)
      ensures Held(d.(milestone := None), p, closes)
    {
      assert Held(d, p, closes);
    }
  }

  lemma NewIsSound(tangle: Tangle, index: nat, createdBy: CreatedBy, closes: Closes)
    ensures Sound(tangle, NewMilestoneData(index, createdBy), closes)
  {
  }

  /** A closed message leaves the pending ones and is remembered as closed. */
  lemma ClosedIsSound(tangle: Tangle, d: MilestoneData, id: MessageId, closes: Closes)
    requires Sound(tangle, d, closes)
    ensures Sound(tangle, d.(pending := d.pending - {id}), closes + {(id, d.index)})
  {
    var t := d.(pending := d.pending - {id});
    forall x, p | x in t.messages && p in tangle(x)
      ensures Held(t, p, closes + {(id, d.index)})
    {
      assert Held(d, p, closes);
    }
  }

  lemma MoreCloses(tangle: Tangle, d: MilestoneData, closes: Closes, more: Closes)
    requires Sound(tangle, d, closes) && closes <= more
    ensures Sound(tangle, d, more)
  {
    forall id, p | id in d.messages && p in tangle(id)
      ensures Held(d, p, more)
    {
      assert Held(d, p, closes);
    }
  }

  // ------------------------------------------------------------------------------------------------------------
  // Every event
  // ------------------------------------------------------------------------------------------------------------

  ghost predicate WholeOut(tangle: Tangle, o: Out, closes: Closes) {
    forall d :: Delivers(o, d) ==> Whole(tangle, d, closes)
  }

  /** All entries stay sound, and whatever was sent is whole. */
  ghost predicate ConesAfter(tangle: Tangle, now: (State, seq<Out>), closes: Closes) {
    Cones(tangle, now.0, closes) && forall i :: 0 <= i < |now.1| ==> WholeOut(tangle, now.1[i], closes)
  }

  lemma PushKeepsCones(tangle: Tangle, s: State, index: nat, closes: Closes)
    requires index in s.entries && Cones(tangle, s, closes)
    ensures ConesAfter(tangle, PushIfCompleted(s, index), closes)
  {
    PushFrame(s, index);
  }

  lemma AsksAreWhole(tangle: Tangle, asks: seq<Out>, now: (State, seq<Out>), closes: Closes)
    requires ConesAfter(tangle, now, closes)
    requires forall i :: 0 <= i < |asks| ==> asks[i].AskMessage? || asks[i].AskMilestone?
    ensures ConesAfter(tangle, (now.0, asks + now.1), closes)
  {
  }

  lemma StoreKeepsCones(tangle: Tangle, s: State, e: Event, closes: Closes)
    requires s.count > 0 && Arrives(e) && Subject(e) in s.entries
    requires Cones(tangle, s, closes) && Genuine(tangle, e.message)
    ensures ConesAfter(tangle, Step(s, e), closes)
  {
    var index, m := Subject(e), e.message;
    var d := s.entries[index];
    var stored := if e.Message? then Stored(d, m) else Stored(d, m).(milestone := Some(m.id));
    SoundUnnamed(tangle, d, closes);
    StoredIsSound(tangle, d, m, closes);
    StoredIsSound(tangle, d.(milestone := Some(m.id)), m, closes);
    assert stored == if e.Message? then Stored(d, m) else Stored(d.(milestone := Some(m.id)), m);
    var t := s.(entries := s.entries[index := stored]);
    PushKeepsCones(tangle, t, index, closes);
    AsksAreWhole(tangle, ParentAsks(d, index, m), PushIfCompleted(t, index), closes);
  }

  lemma FirstKeepsCones(tangle: Tangle, s: State, index: nat, m: FullMessage, closes: Closes)
    requires Cones(tangle, s, closes) && Genuine(tangle, m)
    ensures ConesAfter(tangle, InsertFirst(s, index, m), closes)
  {
    NewIsSound(tangle, index, Syncer, closes);
    StoredIsSound(tangle, NewMilestoneData(index, Syncer), m, closes);
  }

  lemma IncomingKeepsCones(tangle: Tangle, s: State, index: nat, m: FullMessage, closes: Closes)
    requires s.count > 0
    requires Cones(tangle, s, closes) && Genuine(tangle, m)
    ensures ConesAfter(tangle, InsertIncoming(s, index, m), closes)
  {
    var named := NewMilestoneData(index, Incoming).(milestone := if m.message.milestone.Some? then Some(m.id) else None);
    NewIsSound(tangle, index, Incoming, closes);
    SoundUnnamed(tangle, named.(milestone := None), closes);
    StoredIsSound(tangle, named, m, closes);
    assert InsertIncoming(s, index, m).0.entries
        == WithExpected(s.id, s.count, s.expected, index, s.entries[index := Stored(named, m)]);
  }

  lemma InsertKeepsCones(tangle: Tangle, s: State, index: nat, m: FullMessage, closes: Closes)
    requires s.count > 0 && index !in s.entries
    requires Cones(tangle, s, closes) && Genuine(tangle, m)
    ensures ConesAfter(tangle, InsertNewEntryOrNot(s, index, m), closes)
  {
    FirstKeepsCones(tangle, s, index, m, closes);
    IncomingKeepsCones(tangle, s, index, m, closes);
  }

  lemma CloseKeepsCones(tangle: Tangle, s: State, id: MessageId, index: nat, closes: Closes)
    requires Cones(tangle, s, closes)
    ensures ConesAfter(tangle, HandleClose(s, id, index), closes + {(id, index)})
  {
    var more := closes + {(id, index)};
    forall k | k in s.entries
      ensures Sound(tangle, s.entries[k], more)
    {
      MoreCloses(tangle, s.entries[k], closes, more);
    }
    if index in s.entries {
      var d := s.entries[index];
      ClosedIsSound(tangle, d, id, closes);
      PushKeepsCones(tangle, s.(entries := s.entries[index := d.(pending := d.pending - {id})]), index, more);
    }
  }

  lemma SolidifyKeepsCones(tangle: Tangle, s: State, index: nat, closes: Closes)
    requires Cones(tangle, s, closes)
    ensures ConesAfter(tangle, HandleSolidify(s, index), closes)
  {
    var t := HandleSolidify(s, index).0;
    NewIsSound(tangle, index, Syncer, closes);
    forall k | k in t.entries
      ensures t.entries[k].index == k && Sound(tangle, t.entries[k], closes)
    {
      if k in s.entries {
        var d := s.entries[k];
        assert Sound(tangle, d, closes);
        assert forall p :: Held(d, p, closes) ==> Held(t.entries[k], p, closes);
      }
    }
  }

  /** Main step: whatever event arrives, every parent of a collected message stays held, and milestone data only leave
      once they are whole. */
  lemma StepKeepsCones(tangle: Tangle, s: State, e: Event, closes: Closes)
    requires s.count > 0 && Cones(tangle, s, closes) && GenuineEvent(tangle, e)
    ensures ConesAfter(tangle, Step(s, e), ClosesAfter(closes, e))
  {
    match e
    case Message(_) =>
      if Subject(e) in s.entries { StoreKeepsCones(tangle, s, e, closes); }
      else { InsertKeepsCones(tangle, s, Subject(e), e.message, closes); }
    case Milestone(_, _) =>
      if Subject(e) in s.entries { StoreKeepsCones(tangle, s, e, closes); }
      else { InsertKeepsCones(tangle, s, Subject(e), e.message, closes); }
    case CloseMessage(id, index) => CloseKeepsCones(tangle, s, id, index, closes);
    case Solidify(index) => SolidifyKeepsCones(tangle, s, index, closes);
    case _ =>
  }

  // ------------------------------------------------------------------------------------------------------------
  // What being whole means
  // ------------------------------------------------------------------------------------------------------------

  /** A walk along parents that meets no closed message and not the genesis after its start. */
  ghost predicate Walk(tangle: Tangle, path: seq<MessageId>, index: nat, closes: Closes) {
    forall i :: 0 < i < |path| ==>
      path[i] in tangle(path[i - 1]) && (path[i], index) !in closes && path[i] != NULL_ID
  }

  /** Main result: data that leave a Solidifier contain every message that a walk from the milestone's own message
      reaches without passing a closed message or the genesis. */
  lemma {:induction false} WholeIsTheCone(tangle: Tangle, d: MilestoneData, closes: Closes, path: seq<MessageId>)
    requires Whole(tangle, d, closes)
    requires path != [] && Some(path[0]) == d.milestone
    requires Walk(tangle, path, d.index, closes)
    ensures path[|path| - 1] in d.messages
    decreases |path|
  {
    if |path| > 1 {
      var before := path[..|path| - 1];
      WholeIsTheCone(tangle, d, closes, before);
      assert before[|path| - 2] == path[|path| - 2];
      assert Held(d, path[|path| - 1], closes);
    }
  }
}
