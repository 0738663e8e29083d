/** A Solidifier as a state machine over values: what each event does to its state, and what it sends. */
module SolidifierSpec {
  import opened Types

  /** Which messages of a milestone are persisted. `messagesLen` is unset until the milestone's data was pushed. */
  datatype InDatabase = InDatabase(analyzed: bool, messagesLen: Option<nat>, ids: set<MessageId>)
  {
    predicate AllInDatabase() {
      messagesLen == Some(|ids|) && analyzed
    }
  }

  const NEW_IN_DATABASE := InDatabase(false, None, {})

  datatype State = State(
    id: nat,
    count: nat,
    gapStart: nat,
    archiving: bool,
    entries: map<nat, MilestoneData>,
    inDatabase: map<nat, InDatabase>,
    lruInDatabase: set<nat>,
    unreachable: set<nat>,
    first: Option<nat>,
    expected: nat)

  function Init(id: nat, count: nat, gapStart: nat, archiving: bool): State {
    State(id, count, gapStart, archiving, map[], map[], {}, {}, None, 0)
  }

  /** What a Solidifier sends. */
  datatype Out =
    | ToSyncer(reply: Reply)
    | ToArchiver(event: ArchiverEvent)
    | AskMessage(index: nat, id: MessageId, createdBy: CreatedBy)
    | AskMilestone(index: nat)
    | InsertAnalytic(data: MilestoneData)
    | InsertSync(index: nat)

  /** What a Solidifier receives. The database answers are the successful ones. */
  datatype Event =
    | Message(message: FullMessage)
    | Milestone(index: nat, message: FullMessage)
    | CloseMessage(id: MessageId, index: nat)
    | Solidify(index: nat)
    | SolidifyFailure(index: nat)
    | Persisted(id: MessageId, index: nat)
    | Analyzed(index: nat)
    | Synced(index: nat)

  // ------------------------------------------------------------------------------------------------------------
  // Parents
  // ------------------------------------------------------------------------------------------------------------

  /** The parents to ask for, in order: those neither stored nor pending nor the genesis, each once. */
  function Missing(parents: seq<MessageId>, known: set<MessageId>): seq<MessageId> {
    if parents == [] then []
    else if parents[0] in known || parents[0] == NULL_ID then Missing(parents[1..], known)
    else [parents[0]] + Missing(parents[1..], known + {parents[0]})
  }

  lemma {:induction false} MissingIds(parents: seq<MessageId>, known: set<MessageId>, p: MessageId)
    ensures p in Missing(parents, known) <==> p in parents && p !in known && p != NULL_ID
    decreases |parents|
  {
    if parents != [] {
      assert p in parents <==> p == parents[0] || p in parents[1..];
      if parents[0] in known || parents[0] == NULL_ID {
        MissingIds(parents[1..], known, p);
      } else {
        MissingIds(parents[1..], known + {parents[0]}, p);
      }
    }
  }

  function Ids(s: seq<MessageId>): set<MessageId> {
    set p | p in s
  }

  function AsksFor(index: nat, ids: seq<MessageId>, createdBy: CreatedBy): (r: seq<Out>)
    ensures |r| == |ids| && forall i :: 0 <= i < |r| ==> r[i] == AskMessage(index, ids[i], createdBy)
  {
    seq(|ids|, i requires 0 <= i < |ids| => AskMessage(index, ids[i], createdBy))
  }

  lemma AsksForSnoc(index: nat, ids: seq<MessageId>, id: MessageId, createdBy: CreatedBy)
    ensures AsksFor(index, ids + [id], createdBy) == AsksFor(index, ids, createdBy) + [AskMessage(index, id, createdBy)]
    ensures Ids(ids + [id]) == Ids(ids) + {id}
  {
  }

  function Known(d: MilestoneData): set<MessageId> {
    d.messages.Keys + d.pending
  }

  /** A message stored below its milestone, its missing parents pending. */
  function Stored(d: MilestoneData, m: FullMessage): MilestoneData {
    d.(pending := d.pending + Ids(Missing(m.message.parents, Known(d))) - {m.id}, messages := d.messages[m.id := m])
  }

  /** The first `i` parents are processed: `asked` are the new pending ones. */
  ghost predicate ParentsDone(parents: seq<MessageId>, i: nat, before: MilestoneData, asked: seq<MessageId>, now: MilestoneData)
    requires i <= |parents|
  {
    && now == before.(pending := before.pending + Ids(asked))
    && Missing(parents, Known(before)) == asked + Missing(parents[i..], Known(now))
  }

  lemma ParentNext(parents: seq<MessageId>, i: nat, before: MilestoneData, asked: seq<MessageId>, now: MilestoneData)
    requires i < |parents| && ParentsDone(parents, i, before, asked, now)
    ensures if parents[i] in Known(now) || parents[i] == NULL_ID then ParentsDone(parents, i + 1, before, asked, now)
            else ParentsDone(parents, i + 1, before, asked + [parents[i]], now.(pending := now.pending + {parents[i]}))
  {
    var p := parents[i];
    assert parents[i..][1..] == parents[i + 1..];
    assert Ids(asked + [p]) == Ids(asked) + {p};
    assert Known(now.(pending := now.pending + {p})) == Known(now) + {p};
  }

  function ParentAsks(d: MilestoneData, index: nat, m: FullMessage): seq<Out> {
    AsksFor(index, Missing(m.message.parents, Known(d)), d.createdBy)
  }

  // ------------------------------------------------------------------------------------------------------------
  // Handlers
  // ------------------------------------------------------------------------------------------------------------

  function Step(s: State, e: Event): (State, seq<Out>)
    requires s.count > 0
  {
    match e
    case Message(m) => HandleMessage(s, m)
    case Milestone(index, m) => HandleMilestone(s, index, m)
    case CloseMessage(id, index) => HandleClose(s, id, index)
    case Solidify(index) => HandleSolidify(s, index)
    case SolidifyFailure(index) => HandleSolidifyFailure(s, index)
    case Persisted(id, index) => HandlePersisted(s, id, index)
    case Analyzed(index) => HandleAnalyzed(s, index)
    case Synced(index) => (s, [])
  }

  function HandleMessage(s: State, m: FullMessage): (State, seq<Out>)
    requires s.count > 0
  {
    if m.refMs in s.entries then
      var d := s.entries[m.refMs];
      var (t, outs) := PushIfCompleted(s.(entries := s.entries[m.refMs := Stored(d, m)]), m.refMs);
      (t, ParentAsks(d, m.refMs, m) + outs)
    else
      InsertNewEntryOrNot(s, m.refMs, m)
  }

  function HandleMilestone(s: State, index: nat, m: FullMessage): (State, seq<Out>)
    requires s.count > 0
  {
    if index in s.entries then
      var d := s.entries[index];
      var (t, outs) := PushIfCompleted(s.(entries := s.entries[index := Stored(d, m).(milestone := Some(m.id))]), index);
      (t, ParentAsks(d, index, m) + outs)
    else
      InsertNewEntryOrNot(s, index, m)
  }

  function HandleClose(s: State, id: MessageId, index: nat): (State, seq<Out>) {
    if index in s.entries then
      var d := s.entries[index];
      PushIfCompleted(s.(entries := s.entries[index := d.(pending := d.pending - {id})]), index)
    else
      (s, [])
  }

  /** A completed entry leaves the Solidifier: to the Syncer if the Syncer asked for it, else to the Archiver. */
  function PushIfCompleted(s: State, index: nat): (State, seq<Out>)
    requires index in s.entries
  {
    if s.entries[index].Completed() then PushOut(s, index) else (s, [])
  }

  function PushOut(s: State, index: nat): (State, seq<Out>)
    requires index in s.entries
  {
    var d := s.entries[index];
    var known := if index in s.inDatabase then s.inDatabase[index] else NEW_IN_DATABASE;
    var now := known.(messagesLen := Some(|d.messages|));
    var (t, synced) := SyncIfAllIn(s.(entries := s.entries - {index}, inDatabase := s.inDatabase[index := now]), index);
    (t, [InsertAnalytic(d)] + synced + Deliver(s, d))
  }

  function Deliver(s: State, d: MilestoneData): seq<Out> {
    if d.createdBy.Syncer? then [ToSyncer(Collected(d))]
    else if s.archiving then [ToArchiver(Data(d, None))]
    else []
  }

  /** Writes the sync row once everything of the milestone is persisted. */
  function SyncIfAllIn(s: State, index: nat): (State, seq<Out>)
    requires index in s.inDatabase
  {
    if s.inDatabase[index].AllInDatabase()
    then (s.(inDatabase := s.inDatabase - {index}, lruInDatabase := s.lruInDatabase + {index}), [InsertSync(index)])
    else (s, [])
  }

  function HandlePersisted(s: State, id: MessageId, index: nat): (State, seq<Out>) {
    if index in s.inDatabase then
      var db := s.inDatabase[index];
      SyncIfAllIn(s.(inDatabase := s.inDatabase[index := db.(ids := db.ids + {id})]), index)
    else if index !in s.lruInDatabase && index !in s.unreachable then
      (s.(inDatabase := s.inDatabase[index := NEW_IN_DATABASE.(ids := {id})]), [])
    else
      (s, [])
  }

  function HandleAnalyzed(s: State, index: nat): (State, seq<Out>) {
    if index in s.inDatabase
    then SyncIfAllIn(s.(inDatabase := s.inDatabase[index := s.inDatabase[index].(analyzed := true)]), index)
    else (s, [])
  }

  /** A request of the Syncer. */
  function HandleSolidify(s: State, index: nat): (State, seq<Out>) {
    if index >= s.expected then (s, [ToSyncer(Unreachable(index))])
    else
      var t := s.(unreachable := s.unreachable - {index});
      if index !in s.entries then
        (Opened(t.(entries := t.entries[index := NewMilestoneData(index, Syncer)]), index), [AskMilestone(index)])
      else if s.entries[index].createdBy.Expected? && s.entries[index].milestone.None? then
        (Opened(t.(entries := t.entries[index := t.entries[index].(createdBy := Syncer)]), index), [AskMilestone(index)])
      else
        (t, [ToSyncer(Unreachable(index))])
  }

  function Opened(s: State, index: nat): State {
    if index in s.inDatabase then s else s.(inDatabase := s.inDatabase[index := NEW_IN_DATABASE])
  }

  /** A Collector could not fetch something this milestone needs. */
  function HandleSolidifyFailure(s: State, index: nat): (State, seq<Out>) {
    if index in s.unreachable || index !in s.entries then (s, [])
    else
      (s.(entries := s.entries - {index},
          lruInDatabase := s.lruInDatabase - {index},
          inDatabase := s.inDatabase - {index},
          unreachable := s.unreachable + {index}),
       if s.entries[index].createdBy.Syncer? then [ToSyncer(Unreachable(index))] else [])
  }

  /** A message of a milestone without an entry: the first one observed and new incoming ones open an entry. */
  function InsertNewEntryOrNot(s: State, index: nat, m: FullMessage): (State, seq<Out>)
    requires s.count > 0 && index !in s.entries
  {
    if index in s.unreachable then (s, [])
    else if s.first.None? then if index < s.gapStart then (s, []) else InsertFirst(s, index, m)
    else if index >= s.expected then InsertIncoming(s, index, m)
    else (s, [])
  }

  function InsertFirst(s: State, index: nat, m: FullMessage): (State, seq<Out>) {
    var d := NewMilestoneData(index, Syncer);
    (s.(first := Some(index), expected := index + s.count, entries := s.entries[index := Stored(d, m)]),
     [AskMilestone(index)] + ParentAsks(d, index, m))
  }

  /** A new incoming milestone; the indexes skipped below it are expected. */
  function InsertIncoming(s: State, index: nat, m: FullMessage): (State, seq<Out>)
    requires s.count > 0
  {
    var d := NewMilestoneData(index, Incoming).(milestone := if m.message.milestone.Some? then Some(m.id) else None);
    (s.(entries := WithExpected(s.id, s.count, s.expected, index, s.entries[index := Stored(d, m)]), expected := index + s.count),
     ParentAsks(d, index, m))
  }

  /** Opens an entry for every index of this Solidifier in from .. to that has none. */
  function WithExpected(id: nat, count: nat, from: nat, to: nat, entries: map<nat, MilestoneData>): map<nat, MilestoneData>
    requires count > 0
  {
    entries + map i | from <= i < to && i % count == id && i !in entries :: NewMilestoneData(i, Expected)
  }

  /** The caches of recent milestones may forget. */
  function Forget(s: State, unreachable: set<nat>, lruInDatabase: set<nat>): State {
    s.(unreachable := s.unreachable - unreachable, lruInDatabase := s.lruInDatabase - lruInDatabase)
  }
}
