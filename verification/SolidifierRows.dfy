/** When a Solidifier writes the sync row of a milestone. The past is the list of events seen and of messages sent. */
module SolidifierRows {
  import opened Types
  import opened SolidifierSpec
  import opened SolidifierProofs

  /** `d` left the Solidifier completed: its analytics were sent to be stored. */
  ghost predicate Pushed(sent: seq<Out>, d: MilestoneData, m: nat) {
    InsertAnalytic(d) in sent && d.index == m && d.Completed()
  }

  ghost predicate AllPersisted(seen: seq<Event>, ids: set<MessageId>, m: nat) {
    forall id :: id in ids ==> Persisted(id, m) in seen
  }

  /** What is remembered about milestone `m` happened. */
  ghost predicate Backed(db: InDatabase, m: nat, seen: seq<Event>, sent: seq<Out>) {
    && AllPersisted(seen, db.ids, m)
    && (db.analyzed ==> Analyzed(m) in seen)
    && (db.messagesLen.Some? ==> exists d :: Pushed(sent, d, m) && |d.messages| == db.messagesLen.value)
  }

  ghost predicate AllBacked(s: State, seen: seq<Event>, sent: seq<Out>) {
    forall m :: m in s.inDatabase ==> Backed(s.inDatabase[m], m, seen, sent)
  }

  /** The sync row of `m` is due: its data left completed, its analytics are stored, and for milestone `m` as many
      distinct messages were persisted as the data hold. */
  ghost predicate Due(m: nat, d: MilestoneData, ids: set<MessageId>, seen: seq<Event>, sent: seq<Out>) {
    && Pushed(sent, d, m)
    && Analyzed(m) in seen
    && AllPersisted(seen, ids, m)
    && |ids| == |d.messages|
  }

  ghost predicate RowDue(m: nat, seen: seq<Event>, sent: seq<Out>) {
    exists d, ids :: Due(m, d, ids, seen, sent)
  }

  ghost predicate RowsDue(outs: seq<Out>, seen: seq<Event>, sent: seq<Out>) {
    forall m :: InsertSync(m) in outs ==> RowDue(m, seen, sent)
  }

  ghost predicate EntriesIndexed(s: State) {
    forall k :: k in s.entries ==> s.entries[k].index == k
  }

  // ------------------------------------------------------------------------------------------------------------

  lemma BackedLater(db: InDatabase, m: nat, seen: seq<Event>, sent: seq<Out>, moreSeen: seq<Event>, moreSent: seq<Out>)
    requires Backed(db, m, seen, sent)
    ensures Backed(db, m, seen + moreSeen, sent + moreSent)
  {
    if db.messagesLen.Some? {
      var d :| Pushed(sent, d, m) && |d.messages| == db.messagesLen.value;
      assert Pushed(sent + moreSent, d, m);
    }
  }

  lemma AllBackedLater(s: State, seen: seq<Event>, sent: seq<Out>, moreSeen: seq<Event>, moreSent: seq<Out>)
    requires AllBacked(s, seen, sent)
    ensures AllBacked(s, seen + moreSeen, sent + moreSent)
  {
    forall m | m in s.inDatabase
      ensures Backed(s.inDatabase[m], m, seen + moreSeen, sent + moreSent)
    {
      BackedLater(s.inDatabase[m], m, seen, sent, moreSeen, moreSent);
    }
  }

  /** Everything is in the database exactly when the row is due; then it is written and forgotten. */
  lemma SyncIsDue(s: State, m: nat, seen: seq<Event>, sent: seq<Out>)
    requires m in s.inDatabase && AllBacked(s, seen, sent)
    ensures var (t, outs) := SyncIfAllIn(s, m); AllBacked(t, seen, sent) && RowsDue(outs, seen, sent)
  {
    var db := s.inDatabase[m];
    if db.AllInDatabase() {
      var d :| Pushed(sent, d, m) && |d.messages| == db.messagesLen.value;
      assert Due(m, d, db.ids, seen, sent);
    }
  }

  /** What a step adds to the past, and that it stays backed. */
  ghost predicate Advances(now: (State, seq<Out>), seen: seq<Event>, sent: seq<Out>) {
    AllBacked(now.0, seen, sent + now.1) && RowsDue(now.1, seen, sent + now.1)
  }

  lemma RowsDueLater(outs: seq<Out>, seen: seq<Event>, sent: seq<Out>, more: seq<Out>)
    requires RowsDue(outs, seen, sent)
    ensures RowsDue(outs, seen, sent + more)
  {
    forall m | InsertSync(m) in outs
      ensures RowDue(m, seen, sent + more)
    {
      var d, ids :| Due(m, d, ids, seen, sent);
      assert Due(m, d, ids, seen, sent + more);
    }
  }

  lemma SyncAdvances(s: State, m: nat, seen: seq<Event>, sent: seq<Out>)
    requires m in s.inDatabase && AllBacked(s, seen, sent)
    ensures Advances(SyncIfAllIn(s, m), seen, sent)
  {
    var (t, outs) := SyncIfAllIn(s, m);
    SyncIsDue(s, m, seen, sent);
    AllBackedLater(t, seen, sent, [], outs);
    assert seen + [] == seen;
    RowsDueLater(outs, seen, sent, outs);
  }

  lemma PushAdvances(s: State, m: nat, seen: seq<Event>, sent: seq<Out>)
    requires m in s.entries && s.entries[m].index == m && AllBacked(s, seen, sent)
    ensures Advances(PushIfCompleted(s, m), seen, sent)
  {
    var d := s.entries[m];
    if d.Completed() {
      var known := if m in s.inDatabase then s.inDatabase[m] else NEW_IN_DATABASE;
      var now := known.(messagesLen := Some(|d.messages|));
      var u := s.(entries := s.entries - {m}, inDatabase := s.inDatabase[m := now]);
      var first := [InsertAnalytic(d)];
      AllBackedLater(s, seen, sent, [], first);
      assert seen + [] == seen;
      assert Pushed(sent + first, d, m);
      SyncIsDue(u, m, seen, sent + first);
      var (t, synced) := SyncIfAllIn(u, m);
      var rest := synced + Deliver(s, d);
      AllBackedLater(t, seen, sent + first, [], rest);
      RowsDueLater(synced, seen, sent + first, rest);
      assert sent + first + rest == sent + (first + synced + Deliver(s, d));
    } else {
      assert sent + [] == sent;
    }
  }

  lemma AsksAdvance(asks: seq<Out>, now: (State, seq<Out>), seen: seq<Event>, sent: seq<Out>)
    requires Advances(now, seen, sent + asks)
    requires forall i :: 0 <= i < |asks| ==> asks[i].AskMessage? || asks[i].AskMilestone?
    ensures Advances((now.0, asks + now.1), seen, sent)
  {
    assert sent + asks + now.1 == sent + (asks + now.1);
  }

  lemma StoreAdvances(s: State, e: Event, seen: seq<Event>, sent: seq<Out>)
    requires s.count > 0 && Arrives(e) && Subject(e) in s.entries
    requires EntriesIndexed(s) && AllBacked(s, seen, sent)
    ensures Advances(Step(s, e), seen, sent)
  {
    var index, d := Subject(e), Stored(s.entries[Subject(e)], e.message);
    var stored := if e.Message? then d else d.(milestone := Some(e.message.id));
    var t, asks := s.(entries := s.entries[index := stored]), ParentAsks(s.entries[index], index, e.message);
    AllBackedLater(t, seen, sent, [], asks);
    assert seen + [] == seen;
    PushAdvances(t, index, seen, sent + asks);
    AsksAdvance(asks, PushIfCompleted(t, index), seen, sent);
  }

  lemma CloseAdvances(s: State, id: MessageId, index: nat, seen: seq<Event>, sent: seq<Out>)
    requires EntriesIndexed(s) && AllBacked(s, seen, sent)
    ensures Advances(HandleClose(s, id, index), seen, sent)
  {
    assert sent + [] == sent;
    if index in s.entries {
      var d := s.entries[index];
      PushAdvances(s.(entries := s.entries[index := d.(pending := d.pending - {id})]), index, seen, sent);
    }
  }

  /** Events that write no row: what they remember anew is empty. */
  lemma QuietAdvances(s: State, now: (State, seq<Out>), seen: seq<Event>, sent: seq<Out>)
    requires AllBacked(s, seen, sent)
    requires forall m :: m in now.0.inDatabase ==>
      (m in s.inDatabase && now.0.inDatabase[m] == s.inDatabase[m]) || now.0.inDatabase[m] == NEW_IN_DATABASE
    requires forall m :: InsertSync(m) !in now.1
    ensures Advances(now, seen, sent)
  {
    AllBackedLater(s, seen, sent, [], now.1);
    assert seen + [] == seen;
  }

  lemma PersistedAdvances(s: State, id: MessageId, index: nat, seen: seq<Event>, sent: seq<Out>)
    requires AllBacked(s, seen, sent) && Persisted(id, index) in seen
    ensures Advances(HandlePersisted(s, id, index), seen, sent)
  {
    assert sent + [] == sent;
    if index in s.inDatabase {
      var db := s.inDatabase[index];
      SyncAdvances(s.(inDatabase := s.inDatabase[index := db.(ids := db.ids + {id})]), index, seen, sent);
    }
  }

  lemma AnalyzedAdvances(s: State, index: nat, seen: seq<Event>, sent: seq<Out>)
    requires AllBacked(s, seen, sent) && Analyzed(index) in seen
    ensures Advances(HandleAnalyzed(s, index), seen, sent)
  {
    assert sent + [] == sent;
    if index in s.inDatabase {
      SyncAdvances(s.(inDatabase := s.inDatabase[index := s.inDatabase[index].(analyzed := true)]), index, seen, sent);
    }
  }

  lemma InsertAdvances(s: State, index: nat, m: FullMessage, seen: seq<Event>, sent: seq<Out>)
    requires s.count > 0 && index !in s.entries && AllBacked(s, seen, sent)
    ensures Advances(InsertNewEntryOrNot(s, index, m), seen, sent)
  {
    var now := InsertNewEntryOrNot(s, index, m);
    assert now.0.inDatabase == s.inDatabase;
    assert forall i :: 0 <= i < |now.1| ==> now.1[i].AskMessage? || now.1[i].AskMilestone?;
    QuietAdvances(s, now, seen, sent);
  }

  /** Main step: a sync row is written only when it is due, whatever the order in which completions, analytics and
      persisted messages come in. */
  lemma StepAdvances(s: State, e: Event, seen: seq<Event>, sent: seq<Out>)
    requires s.count > 0 && EntriesIndexed(s) && AllBacked(s, seen, sent)
    ensures Advances(Step(s, e), seen + [e], sent)
  {
    AllBackedLater(s, seen, sent, [e], []);
    assert sent + [] == sent;
    match e
    case Message(m) =>
      if m.refMs in s.entries { StoreAdvances(s, e, seen + [e], sent); }
      else { InsertAdvances(s, m.refMs, m, seen + [e], sent); }
    case Milestone(index, m) =>
      if index in s.entries { StoreAdvances(s, e, seen + [e], sent); }
      else { InsertAdvances(s, index, m, seen + [e], sent); }
    case CloseMessage(id, index) => CloseAdvances(s, id, index, seen + [e], sent);
    case Persisted(id, index) => PersistedAdvances(s, id, index, seen + [e], sent);
    case Analyzed(index) => AnalyzedAdvances(s, index, seen + [e], sent);
    case _ => QuietAdvances(s, Step(s, e), seen + [e], sent);
  }

  /** When the persisted messages counted for a milestone are its own, a due row means that all of them are persisted. */
  lemma DueMeansAllPersisted(m: nat, d: MilestoneData, ids: set<MessageId>, seen: seq<Event>, sent: seq<Out>)
    requires Due(m, d, ids, seen, sent)
    requires forall id :: Persisted(id, m) in seen ==> id in d.messages
    ensures ids == d.messages.Keys
    ensures AllPersisted(seen, d.messages.Keys, m)
  {
    var extra := d.messages.Keys - ids;
    assert d.messages.Keys == ids + extra;
    assert |d.messages.Keys| == |ids| + |extra|;
  }
}
