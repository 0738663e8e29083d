/** The Syncer as a state machine over values: what each of its handlers does to its state and channels. */
module SyncerSpec {
  import opened Types
  import opened Ranges
  import opened SyncTable

  /** The end of the last gap of the sync table: i32::MAX. */
  const LAST_GAP_END: nat := 0x7FFF_FFFF

  datatype Ask = AskComplete | AskFillGaps | AskUpdateSyncData

  /** The gap being worked on; its range is what has not been requested yet. */
  datatype Active = Complete(range: Range) | FillGaps(range: Range)

  /** `ranged` tells whether a sync range is configured. */
  datatype Config = Config(parallelism: nat, archiving: bool, ranged: bool)

  /** Bookkeeping of the gap being worked on: its bounds, the next index to hand over, the last closed file. */
  datatype Gap = Gap(start: nat, end: nat, next: nat, prevClosed: nat)

  /** What the Syncer did so far: the solidify requests it sent, the gaps it announced to work on, the Archiver events, the
      unreachable-milestone alerts, the frontier on the oneshot channel, and how often it scheduled an update of the sync
      data. */
  datatype Sent = Sent(
    requested: seq<nat>, taken: seq<Range>, archived: seq<ArchiverEvent>, alerts: seq<nat>, frontier: Option<nat>, scheduled: nat)

  datatype State = State(
    syncData: Snapshot,
    active: Option<Active>,
    firstAsk: Option<Ask>,
    heap: seq<MilestoneData>,
    highest: nat,
    pending: nat,
    eof: bool,
    skip: bool,
    gap: Gap,
    sent: Sent)

  function Init(syncData: Snapshot, firstAsk: Option<Ask>, solidifiers: nat): State {
    State(syncData, None, firstAsk, [], 0, solidifiers, false, false, Gap(0, 0, 0, 0), Sent([], [], [], [], None, 0))
  }

  // ------------------------------------------------------------------------------------------------------------
  // The min-heap of milestone data
  // ------------------------------------------------------------------------------------------------------------

  /** The heap lists its data in the order in which `pop` returns them. */
  ghost predicate Sorted(h: seq<MilestoneData>) {
    forall i, j :: 0 <= i < j < |h| ==> h[i].index <= h[j].index
  }

  /** The number of data in front of a new one: behind those with the same or a lower index. */
  function Slot(h: seq<MilestoneData>, index: nat): (i: nat)
    ensures i <= |h|
    ensures forall k :: 0 <= k < i ==> h[k].index <= index
    ensures i < |h| ==> index < h[i].index
  {
    if h == [] || index < h[0].index then 0 else 1 + Slot(h[1..], index)
  }

  function Push(h: seq<MilestoneData>, d: MilestoneData): seq<MilestoneData> {
    h[..Slot(h, d.index)] + [d] + h[Slot(h, d.index)..]
  }

  function Indexes(h: seq<MilestoneData>): (r: seq<nat>)
    ensures |r| == |h| && forall i :: 0 <= i < |h| ==> r[i] == h[i].index
  {
    seq(|h|, i requires 0 <= i < |h| => h[i].index)
  }

  lemma PushKeepsOrder(h: seq<MilestoneData>, d: MilestoneData)
    requires Sorted(h)
    ensures Sorted(Push(h, d))
  {
    var i, r := Slot(h, d.index), Push(h, d);
    forall j, k | 0 <= j < k < |r|
      ensures r[j].index <= r[k].index
    {
      assert r[j] == if j < i then h[j] else if j == i then d else h[j - 1];
      assert r[k] == if k < i then h[k] else if k == i then d else h[k - 1];
      assert i < k ==> h[i].index <= h[k - 1].index;
    }
  }

  lemma PushAddsIndex(h: seq<MilestoneData>, d: MilestoneData)
    ensures multiset(Indexes(Push(h, d))) == multiset(Indexes(h)) + multiset{d.index}
  {
    var i, idx := Slot(h, d.index), Indexes(h);
    assert Indexes(Push(h, d)) == idx[..i] + [d.index] + idx[i..];
    assert idx == idx[..i] + idx[i..];
  }

  // ------------------------------------------------------------------------------------------------------------
  // Handlers
  // ------------------------------------------------------------------------------------------------------------

  function Archive(c: Config, s: State, e: ArchiverEvent): State {
    s.(sent := if c.archiving then s.sent.(archived := s.sent.archived + [e]) else s.sent)
  }

  /** Requests the indexes from .. from + n in order. */
  function Request(s: State, from: nat, n: nat): State {
    s.(sent := s.sent.(requested := s.sent.requested + Iota(from, from + n)), pending := s.pending + n)
  }

  /** Sends the data from `next` on, as far as the heap holds them without a hole. */
  function Flush(c: Config, s: State): State
    decreases |s.heap|
  {
    if s.heap != [] && s.heap[0].index == s.gap.next
    then Flush(c, Archive(c, s.(heap := s.heap[1..], gap := s.gap.(next := s.gap.next + 1)), Data(s.heap[0], Some(s.gap.end))))
    else s
  }

  function Remaining(a: Active): nat {
    if a.range.start < a.range.end then a.range.end - a.range.start else 0
  }

  /** Requests the next `n` indexes of the active range, or as many as it still has. */
  function RequestFromActive(s: State, n: nat): State
    requires s.active.Some?
  {
    var a := s.active.value;
    var k := if n <= Remaining(a) then n else Remaining(a);
    Request(s, a.range.start, k).(active := Some(a.(range := Range(a.range.start + k, a.range.end))))
  }

  lemma RequestNone(s: State)
    requires s.active.Some?
    ensures RequestFromActive(s, 0) == s
  {
    var from := s.active.value.range.start;
    assert s.sent.requested + Iota(from, from) == s.sent.requested;
  }

  lemma RequestAll(s: State, n: nat)
    requires s.active.Some? && Remaining(s.active.value) <= n
    ensures RequestFromActive(s, n) == RequestFromActive(s, Remaining(s.active.value))
  {
  }

  /** Requesting `n + 1` indexes is requesting `n` and then one more. */
  lemma RequestOneMore(s: State, n: nat)
    requires s.active.Some? && n <= Remaining(s.active.value)
    ensures var t := RequestFromActive(s, n);
            && Remaining(t.active.value) == Remaining(s.active.value) - n
            && (n < Remaining(s.active.value) ==> RequestFromActive(t, 1) == RequestFromActive(s, n + 1))
            && (n == Remaining(s.active.value) ==> RequestFromActive(t, 1) == t)
  {
    var t, from := RequestFromActive(s, n), s.active.value.range.start;
    if n == Remaining(s.active.value) {
      assert t.sent.requested + Iota(from + n, from + n) == t.sent.requested;
    } else {
      IotaSplit(from, from + n, from + n + 1);
      assert t.sent.requested + Iota(from + n, from + n + 1) == s.sent.requested + Iota(from, from + n + 1);
    }
  }

  function CloseLogFile(c: Config, s: State): State {
    if s.gap.prevClosed != s.gap.start && s.gap.start != s.gap.next
    then Archive(c, s.(gap := s.gap.(prevClosed := s.gap.start)), Close(s.gap.next))
    else s.(gap := s.gap.(prevClosed := 0))
  }

  function Schedule(s: State): State {
    s.(sent := s.sent.(scheduled := s.sent.scheduled + 1))
  }

  /** Moves on once nothing is pending. */
  function TriggerProcessMore(c: Config, s: State): State
    decreases s.syncData.Size(), if s.active.Some? then 1 else 0, 1
  {
    if s.pending == 0 then ProcessMore(c, s) else s
  }

  function ProcessMore(c: Config, s: State): State
    decreases s.syncData.Size(), if s.active.Some? then 1 else 0, 0
  {
    if s.active.None? then Schedule(s.(eof := true))
    else
      var t := RequestFromActive(s, c.parallelism);
      if Remaining(s.active.value) < c.parallelism && t.pending == 0
      then TakeNext(c, CloseLogFile(c, t).(active := None), t.active.value.Complete?)
      else t
  }

  /** Takes the lowest uncomplete run, or the lowest gap, and starts on it; the last gap ends at the highest milestone. */
  function TakeNext(c: Config, s: State, complete: bool): State
    requires s.active.None?
    decreases s.syncData.Size(), 0, 2
  {
    var (r, rest) := if complete then TakeUncomplete(s.syncData) else TakeGap(s.syncData);
    var t := s.(syncData := rest);
    if r.None? then TriggerProcessMore(c, t)
    else if r.value.end != LAST_GAP_END then TriggerProcessMore(c, Start(t, r.value, complete))
    else if s.highest > r.value.start then TriggerProcessMore(c, Start(t, Range(r.value.start, s.highest), complete))
    else TriggerProcessMore(c, t)
  }

  function Start(s: State, gap: Range, complete: bool): State {
    s.(gap := s.gap.(start := gap.start, end := gap.end, next := gap.start),
       active := Some(if complete then Complete(gap) else FillGaps(gap)),
       sent := s.sent.(taken := s.sent.taken + [gap]))
  }

  /** Sends the rest of the first milestone data in order, closing the log file at every hole and at the end. */
  function SendRest(c: Config, s: State, next: nat): (t: State)
    ensures t.active == s.active
    decreases |s.heap|
  {
    if s.heap == [] then Archive(c, s.(sent := s.sent.(frontier := Some(next))), Close(next))
    else
      var d := s.heap[0];
      var t := if d.index != next then Archive(c, s.(highest := d.index), Close(next)) else s;
      SendRest(c, Archive(c, t.(heap := s.heap[1..]), Data(d, None)), d.index + 1)
  }

  /** Sends the first milestone data of all Solidifiers. */
  function SendFirst(c: Config, s: State): (t: State)
    requires s.heap != []
    ensures t.active == s.active
  {
    SendRest(c, s.(highest := s.heap[0].index), s.heap[0].index)
  }

  function CompleteOrFillGaps(c: Config, s: State): State
    requires s.active.None?
  {
    if s.firstAsk == Some(AskComplete) then TakeNext(c, s, true)
    else if s.firstAsk == Some(AskFillGaps) then TakeNext(c, s, false)
    else s
  }

  /** Once nothing is pending, drops what was collected of the active gap and the rest of its range. */
  function HandleSkip(s: State): State
    requires s.pending == 0 ==> s.active.Some?
  {
    if s.pending == 0
    then s.(heap := [], skip := false, active := Some(Exhausted(s.active.value)))
    else s.(skip := true)
  }

  function Exhausted(a: Active): Active {
    a.(range := Range(a.range.start + Remaining(a), a.range.end))
  }

  /** What the Syncer relies on when a reply arrives: it is outstanding, and unless the Syncer still waits for the
      first milestones there is an active gap. */
  predicate AcceptsReply(s: State) {
    && s.pending > 0
    && (s.highest != 0 ==> s.active.Some?)
    && (s.highest == 0 ==> s.active.None?)
  }

  /** It relies on more when a milestone is unreachable: an active gap, unless other replies are outstanding. */
  predicate AcceptsUnreachable(s: State) {
    AcceptsReply(s) && (s.pending == 1 ==> s.active.Some?)
  }

  predicate Accepts(s: State, r: Reply) {
    if r.Unreachable? then AcceptsUnreachable(s) else AcceptsReply(s)
  }

  /** What collected data leads to, once it is in the heap. */
  function Receive(c: Config, s: State): State
    requires s.highest == 0 ==> s.active.None? && s.heap != []
    requires s.highest != 0 ==> s.active.Some?
  {
    if s.highest == 0 && s.pending == 0 then CompleteOrFillGaps(c, SendFirst(c, s))
    else if s.highest != 0 && !s.skip then Flush(c, RequestFromActive(s, 1))
    else if s.skip then HandleSkip(s)
    else s
  }

  function HandleMilestoneData(c: Config, s: State, d: MilestoneData): State
    requires AcceptsReply(s)
  {
    TriggerProcessMore(c, Receive(c, s.(pending := s.pending - 1, heap := Push(s.heap, d))))
  }

  /** No peer could provide a milestone. */
  function HandleUnreachable(c: Config, s: State, index: nat): State
    requires AcceptsUnreachable(s)
  {
    TriggerProcessMore(c, HandleSkip(s.(pending := s.pending - 1, sent := s.sent.(alerts := s.sent.alerts + [index]))))
  }

  function HandleReply(c: Config, s: State, r: Reply): State
    requires Accepts(s, r)
  {
    match r
    case Collected(d) => HandleMilestoneData(c, s, d)
    case Unreachable(index) => HandleUnreachable(c, s, index)
  }

  /** An ask; `fetched` is what the sync table holds when it is read, if reading it succeeds. */
  function HandleAsk(c: Config, s: State, ask: Ask, fetched: Option<Snapshot>): State {
    if s.active.Some? then s
    else if ask.AskUpdateSyncData? then UpdateSync(c, s, fetched)
    else if s.highest == 0 then s.(firstAsk := Some(ask))
    else TakeNext(c, s, ask.AskComplete?)
  }

  function UpdateSync(c: Config, s: State, fetched: Option<Snapshot>): State
    requires s.active.None?
  {
    if !s.eof || !c.ranged then s
    else if fetched.None? then Schedule(s)
    else CompleteOrFillGaps(c, s.(syncData := fetched.value, eof := false))
  }
}
