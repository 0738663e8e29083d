/** What a Solidifier asks for, how it answers requests, and which rows it writes: all of them, and no others. */
module SolidifierDuties {
  import opened Types
  import opened SolidifierSpec
  import opened SolidifierProofs
  import opened SolidifierProgress
  import opened SolidifierRuns

  // ------------------------------------------------------------------------------------------------------------
  // Asks for messages
  // ------------------------------------------------------------------------------------------------------------

  predicate AsksMessage(o: Out) {
    o.AskMessage?
  }

  predicate AsksMilestone(o: Out) {
    o.AskMilestone?
  }

  /** The first position of a parent, or the number of parents. */
  function FirstAt(parents: seq<MessageId>, p: MessageId): nat {
    if parents == [] || parents[0] == p then 0 else 1 + FirstAt(parents[1..], p)
  }

  /** The ids are parents in the order of their first positions, each once. */
  ghost predicate InOrderOf(ids: seq<MessageId>, parents: seq<MessageId>) {
    forall i, j :: 0 <= i < j < |ids| ==> FirstAt(parents, ids[i]) < FirstAt(parents, ids[j])
  }

  lemma {:induction false} MissingInOrder(parents: seq<MessageId>, known: set<MessageId>)
    ensures InOrderOf(Missing(parents, known), parents)
    decreases |parents|
  {
    if parents != [] {
      var p, rest := parents[0], parents[1..];
      var later := if p in known || p == NULL_ID then known else known + {p};
      var ids := Missing(rest, later);
      MissingInOrder(rest, later);
      forall i | 0 <= i < |ids|
        ensures FirstAt(parents, ids[i]) == 1 + FirstAt(rest, ids[i])
      {
        MissingIds(rest, later, ids[i]);
      }
    }
  }

  /** Exactly the parents that the entry neither has nor waits for are asked for on its behalf, each once and in order. */
  ghost predicate AsksForMissing(d: MilestoneData, k: nat, m: FullMessage, outs: seq<Out>) {
    exists ids ::
      && Only(outs, AsksMessage) == AsksFor(k, ids, d.createdBy)
      && InOrderOf(ids, m.message.parents)
      && forall p :: p in ids <==> p in m.message.parents && p !in d.messages && p !in d.pending && p != NULL_ID
  }

  lemma {:induction false} AllOnly(outs: seq<Out>, p: Out -> bool)
    requires forall i :: 0 <= i < |outs| ==> p(outs[i])
    ensures Only(outs, p) == outs
    decreases |outs|
  {
    if outs != [] { AllOnly(outs[1..], p); }
  }

  lemma ParentsAreAsked(d: MilestoneData, k: nat, m: FullMessage, before: seq<Out>, after: seq<Out>)
    requires forall i :: 0 <= i < |before| ==> !before[i].AskMessage?
    requires forall i :: 0 <= i < |after| ==> !after[i].AskMessage?
    ensures AsksForMissing(d, k, m, before + ParentAsks(d, k, m) + after)
  {
    var ids := Missing(m.message.parents, Known(d));
    var asks := ParentAsks(d, k, m);
    NoneOnly(before, AsksMessage);
    NoneOnly(after, AsksMessage);
    AllOnly(asks, AsksMessage);
    OnlyConcat(before + asks, after, AsksMessage);
    OnlyConcat(before, asks, AsksMessage);
    assert Only(before + asks + after, AsksMessage) == asks;
    MissingInOrder(m.message.parents, Known(d));
    forall p
      ensures p in ids <==> p in m.message.parents && p !in d.messages && p !in d.pending && p != NULL_ID
    {
      MissingIds(m.message.parents, Known(d), p);
    }
  }

  lemma PushAsksNothing(s: State, k: nat)
    requires k in s.entries
    ensures var outs := PushIfCompleted(s, k).1;
            forall i :: 0 <= i < |outs| ==> !outs[i].AskMessage? && !outs[i].AskMilestone?
  {
  }

  lemma AskedThenPushed(d: MilestoneData, k: nat, m: FullMessage, pushed: seq<Out>)
    requires forall i :: 0 <= i < |pushed| ==> !pushed[i].AskMessage? && !pushed[i].AskMilestone?
    ensures AsksForMissing(d, k, m, ParentAsks(d, k, m) + pushed)
    ensures Only(ParentAsks(d, k, m) + pushed, AsksMilestone) == []
  {
    ParentsAreAsked(d, k, m, [], pushed);
    assert [] + ParentAsks(d, k, m) == ParentAsks(d, k, m);
    NoneOnly(ParentAsks(d, k, m) + pushed, AsksMilestone);
  }

  /** A message of an entry: its missing parents are asked for. */
  lemma StoredAsksForMissing(s: State, e: Event)
    requires s.count > 0 && Arrives(e) && Subject(e) in s.entries
    ensures AsksForMissing(s.entries[Subject(e)], Subject(e), e.message, Step(s, e).1)
    ensures Only(Step(s, e).1, AsksMilestone) == []
  {
    var k := Subject(e);
    var d := s.entries[k];
    var u := if e.Message? then Stored(d, e.message) else Stored(d, e.message).(milestone := Some(e.message.id));
    var v := s.(entries := s.entries[k := u]);
    PushAsksNothing(v, k);
    AskedThenPushed(d, k, e.message, PushIfCompleted(v, k).1);
  }

  /** A message that opens an entry: the same, and the first milestone itself is asked for. */
  lemma EnteredAsksForMissing(s: State, e: Event)
    requires s.count > 0 && Enters(s, e)
    ensures AsksForMissing(NewMilestoneData(Subject(e), if s.first.None? then Syncer else Incoming), Subject(e), e.message, Step(s, e).1)
    ensures Only(Step(s, e).1, AsksMilestone) == if s.first.None? then [AskMilestone(Subject(e))] else []
  {
    var k, m := Subject(e), e.message;
    var d := NewMilestoneData(k, if s.first.None? then Syncer else Incoming);
    var before := if s.first.None? then [AskMilestone(k)] else [];
    assert Step(s, e) == InsertNewEntryOrNot(s, k, m);
    assert Known(d.(milestone := if m.message.milestone.Some? then Some(m.id) else None)) == Known(d);
    assert Step(s, e).1 == before + ParentAsks(d, k, m) + [];
    ParentsAreAsked(d, k, m, before, []);
    NoneOnly(ParentAsks(d, k, m), AsksMilestone);
    OnlyConcat(before, ParentAsks(d, k, m), AsksMilestone);
    OnlyConcat(before + ParentAsks(d, k, m), [], AsksMilestone);
    if before != [] { OnlyOne(AskMilestone(k), AsksMilestone); }
  }

  // ------------------------------------------------------------------------------------------------------------
  // Requests and failures
  // ------------------------------------------------------------------------------------------------------------

  /** The Solidifier can take the request up: its turn has come, and nothing or only an empty expected entry is in the way. */
  predicate Takes(s: State, k: nat) {
    k < s.expected && (k !in s.entries || (s.entries[k].createdBy.Expected? && s.entries[k].milestone.None?))
  }

  /** A request is taken up if it can be: then the milestone belongs to the Syncer, its message is asked for and it has a
      record of its rows. If it cannot be, that is answered at once. */
  lemma RequestIsTakenIff(s: State, k: nat)
    requires s.count > 0
    ensures var (t, outs) := Step(s, Solidify(k));
            && outs == (if Takes(s, k) then [AskMilestone(k)] else [ToSyncer(Unreachable(k))])
            && (!Takes(s, k) ==> t.entries == s.entries)
            && (Takes(s, k) ==>
                 && t.entries.Keys == s.entries.Keys + {k} && (forall x :: x in s.entries && x != k ==> t.entries[x] == s.entries[x])
                 && t.entries[k] == (if k in s.entries then s.entries[k].(createdBy := Syncer) else NewMilestoneData(k, Syncer))
                 && k in t.inDatabase && (k in s.inDatabase ==> t.inDatabase[k] == s.inDatabase[k]))
            && t.unreachable == (if k < s.expected then s.unreachable - {k} else s.unreachable)
            && t.expected == s.expected && t.first == s.first
  {
    if Takes(s, k) {
      assert Step(s, Solidify(k)).0.entries.Keys == s.entries.Keys + {k};
    }
  }

  /** A failure ends the entry and its record, and the index is unreachable from then on: no message opens it again. */
  lemma FailureEnds(s: State, k: nat)
    requires s.count > 0 && k in s.entries && k !in s.unreachable
    ensures var (t, outs) := Step(s, SolidifyFailure(k));
            && t.entries == s.entries - {k} && t.unreachable == s.unreachable + {k}
            && t.inDatabase == s.inDatabase - {k} && t.lruInDatabase == s.lruInDatabase - {k}
            && outs == if s.entries[k].createdBy.Syncer? then [ToSyncer(Unreachable(k))] else []
    ensures forall e :: Arrives(e) && Subject(e) == k ==>
              Step(Step(s, SolidifyFailure(k)).0, e) == (Step(s, SolidifyFailure(k)).0, [])
  {
  }

  // ------------------------------------------------------------------------------------------------------------
  // Rows
  // ------------------------------------------------------------------------------------------------------------

  predicate WritesRow(o: Out) {
    o.InsertSync?
  }

  /** Everything of the milestone is stored: its analytics, and as many messages as its data hold. */
  ghost predicate Full(r: InDatabase) {
    r.analyzed && r.messagesLen == Some(|r.ids|)
  }

  /** The record of `m`, as `r` by now, is kept as long as something is missing; then the row is written, once, and the
      milestone is remembered as stored. */
  ghost predicate RowSettled(s: State, m: nat, r: InDatabase, now: (State, seq<Out>)) {
    if Full(r)
    then now.0.inDatabase == s.inDatabase - {m} && Only(now.1, WritesRow) == [InsertSync(m)] && now.0.lruInDatabase == s.lruInDatabase + {m}
    else now.0.inDatabase == s.inDatabase[m := r] && Only(now.1, WritesRow) == [] && now.0.lruInDatabase == s.lruInDatabase
  }

  lemma SyncSettles(s: State, m: nat, r: InDatabase)
    ensures RowSettled(s, m, r, SyncIfAllIn(s.(inDatabase := s.inDatabase[m := r]), m))
  {
    assert s.inDatabase[m := r] - {m} == s.inDatabase - {m};
    OnlyOne(InsertSync(m), WritesRow);
  }

  /** A stored message is counted; the first one of a milestone that is neither stored already nor given up opens a
      record. */
  lemma PersistedIsCounted(s: State, id: MessageId, m: nat)
    requires s.count > 0
    ensures var now := Step(s, Persisted(id, m));
            && now.0.entries == s.entries
            && (m in s.inDatabase ==> RowSettled(s, m, s.inDatabase[m].(ids := s.inDatabase[m].ids + {id}), now))
            && (m !in s.inDatabase && m !in s.lruInDatabase && m !in s.unreachable ==> RowSettled(s, m, InDatabase(false, None, {id}), now))
            && (m !in s.inDatabase && (m in s.lruInDatabase || m in s.unreachable) ==> now == (s, []))
  {
    if m in s.inDatabase { SyncSettles(s, m, s.inDatabase[m].(ids := s.inDatabase[m].ids + {id})); }
  }

  lemma AnalyzedIsNoted(s: State, m: nat)
    requires s.count > 0
    ensures var now := Step(s, Analyzed(m));
            && now.0.entries == s.entries
            && (m in s.inDatabase ==> RowSettled(s, m, s.inDatabase[m].(analyzed := true), now))
            && (m !in s.inDatabase ==> now == (s, []))
  {
    if m in s.inDatabase { SyncSettles(s, m, s.inDatabase[m].(analyzed := true)); }
  }

  /** The record once the milestone's data `u` left. */
  function Counted(s: State, k: nat, u: MilestoneData): InDatabase {
    (if k in s.inDatabase then s.inDatabase[k] else InDatabase(false, None, {})).(messagesLen := Some(|u.messages|))
  }

  /** Pushing settles the rows as well: with the data gone it is known how many messages there are. */
  ghost predicate RowsAfter(s: State, k: nat, u: MilestoneData, now: (State, seq<Out>)) {
    if Done(u) then RowSettled(s, k, Counted(s, k, u), now)
    else now.0.inDatabase == s.inDatabase && Only(now.1, WritesRow) == [] && now.0.lruInDatabase == s.lruInDatabase
  }

  lemma PushCounts(s: State, k: nat, u: MilestoneData)
    ensures RowsAfter(s, k, u, PushIfCompleted(s.(entries := s.entries[k := u]), k))
  {
    var v := s.(entries := s.entries[k := u]);
    if Done(u) {
      var w := s.(entries := v.entries - {k});
      SyncSettles(w, k, Counted(s, k, u));
      var rows := SyncIfAllIn(w.(inDatabase := s.inDatabase[k := Counted(s, k, u)]), k).1;
      assert PushIfCompleted(v, k).1 == [InsertAnalytic(u)] + rows + Deliver(v, u);
      RowsOfPush(InsertAnalytic(u), rows, Deliver(v, u));
    }
  }

  lemma RowsOfPush(first: Out, rows: seq<Out>, last: seq<Out>)
    requires !first.InsertSync? && forall i :: 0 <= i < |last| ==> !last[i].InsertSync?
    ensures Only([first] + rows + last, WritesRow) == Only(rows, WritesRow)
  {
    NoneOnly(last, WritesRow);
    OnlyOne(first, WritesRow);
    OnlyConcat([first] + rows, last, WritesRow);
    OnlyConcat([first], rows, WritesRow);
  }

  lemma RowsAfterAsks(s: State, k: nat, u: MilestoneData, asks: seq<Out>, now: (State, seq<Out>))
    requires RowsAfter(s, k, u, now) && forall i :: 0 <= i < |asks| ==> asks[i].AskMessage?
    ensures RowsAfter(s, k, u, (now.0, asks + now.1))
  {
    NoneOnly(asks, WritesRow);
    OnlyConcat(asks, now.1, WritesRow);
  }

  /** When an entry takes an event in, its rows are settled as well. */
  lemma EntryCounts(s: State, e: Event) returns (u: MilestoneData)
    requires s.count > 0 && Feeds(e) && Subject(e) in s.entries
    ensures Fed(s.entries[Subject(e)], e, u) && RowsAfter(s, Subject(e), u, Step(s, e))
  {
    var k := Subject(e);
    var d := s.entries[k];
    if Arrives(e) {
      u := if e.Message? then Stored(d, e.message) else Stored(d, e.message).(milestone := Some(e.message.id));
      FedByMessage(d, e);
      PushCounts(s, k, u);
      RowsAfterAsks(s, k, u, ParentAsks(d, k, e.message), PushIfCompleted(s.(entries := s.entries[k := u]), k));
    } else {
      u := d.(pending := d.pending - {e.id});
      PushCounts(s, k, u);
    }
  }

  ghost predicate NoneFull(s: State) {
    forall m :: m in s.inDatabase ==> !Full(s.inDatabase[m])
  }

  /** Every other event writes no row; a request may open an empty record, a failure ends one. */
  lemma OthersWriteNoRow(s: State, e: Event)
    requires s.count > 0 && !e.Persisted? && !e.Analyzed? && !(Feeds(e) && Subject(e) in s.entries)
    ensures Only(Step(s, e).1, WritesRow) == []
    ensures forall m :: m in Step(s, e).0.inDatabase ==>
              (m in s.inDatabase && Step(s, e).0.inDatabase[m] == s.inDatabase[m]) || Step(s, e).0.inDatabase[m] == InDatabase(false, None, {})
    ensures forall m :: m in s.inDatabase && m !in Step(s, e).0.inDatabase ==> e == SolidifyFailure(m)
  {
    NoneOnly(Step(s, e).1, WritesRow);
  }

  /** No row that is due is left unwritten: a full record never stays. */
  lemma StepLeavesNoneFull(s: State, e: Event)
    requires s.count > 0 && NoneFull(s)
    ensures NoneFull(Step(s, e).0)
  {
    if e.Persisted? {
      PersistedIsCounted(s, e.id, e.index);
    } else if e.Analyzed? {
      AnalyzedIsNoted(s, e.index);
    } else if Feeds(e) && Subject(e) in s.entries {
      var u := EntryCounts(s, e);
    } else {
      OthersWriteNoRow(s, e);
    }
  }

  /** Main result: over any run no row is due and unwritten. */
  lemma {:induction false} RunLeavesNoneFull(id: nat, count: nat, gapStart: nat, archiving: bool, actions: seq<Action>)
    requires id < count
    ensures NoneFull(Run(Fresh(id, count, gapStart, archiving), actions).state)
    decreases |actions|
  {
    if actions != [] {
      var n := |actions| - 1;
      RunLeavesNoneFull(id, count, gapStart, archiving, actions[..n]);
      if actions[n].Handle? { StepLeavesNoneFull(Run(Fresh(id, count, gapStart, archiving), actions[..n]).state, actions[n].event); }
    }
  }
}
