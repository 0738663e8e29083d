/** How often the Syncer hands a milestone over: once, as long as the sync table does not call missing what the Archiver
    has already got. */
module SyncerHandover {
  import opened Types
  import opened Ranges
  import opened SyncTable
  import opened SyncerSpec
  import opened SyncerProofs
  import opened SyncerBootstrap
  import opened SyncerRequests

  // ------------------------------------------------------------------------------------------------------------
  // What was handed over
  // ------------------------------------------------------------------------------------------------------------

  /** How often data of milestone `x` are among the events. */
  ghost function Count(events: seq<ArchiverEvent>, x: nat): nat {
    if events == [] then 0 else Count(events[..|events| - 1], x) + One(Carries(events[|events| - 1], x))
  }

  ghost predicate Carries(e: ArchiverEvent, x: nat) {
    e.Data? && e.data.index == x
  }

  lemma CountSnoc(events: seq<ArchiverEvent>, e: ArchiverEvent, x: nat)
    ensures Count(events + [e], x) == Count(events, x) + One(Carries(e, x))
  {
    assert (events + [e])[..|events|] == events;
  }

  lemma {:induction false} CountMember(events: seq<ArchiverEvent>, x: nat)
    ensures Count(events, x) > 0 <==> exists i :: 0 <= i < |events| && Carries(events[i], x)
  {
    if events != [] {
      var n := |events| - 1;
      CountMember(events[..n], x);
      if Count(events[..n], x) > 0 {
        var i :| 0 <= i < n && Carries(events[..n][i], x);
        assert Carries(events[i], x);
      }
    }
  }

  /** Events in the order of their ranks carry each milestone at most once. */
  lemma {:induction false} RankedOnce(events: seq<ArchiverEvent>, x: nat)
    requires InRankOrder(events)
    ensures Count(events, x) <= 1
  {
    if events != [] {
      var n := |events| - 1;
      RankedOnce(events[..n], x);
      if Carries(events[n], x) {
        CountMember(events[..n], x);
      }
    }
  }

  /** Data of the Syncer, below the frontier, and below their limit if they have one. */
  ghost predicate Sendable(e: ArchiverEvent, frontier: nat) {
    e.Data? ==>
      e.data.createdBy.Syncer? && e.data.index < frontier && (e.upperLimit.Some? ==> e.data.index < e.upperLimit.value)
  }

  ghost predicate AllSendable(events: seq<ArchiverEvent>, frontier: nat) {
    forall i :: 0 <= i < |events| ==> Sendable(events[i], frontier)
  }

  // ------------------------------------------------------------------------------------------------------------
  // What the sync table may list
  // ------------------------------------------------------------------------------------------------------------

  ghost predicate EndOk(end: nat, highest: nat) {
    end <= highest || end == LAST_GAP_END
  }

  /** What the Syncer will take up: all that is open when it completes the table (`whole`), else what is missing. */
  ghost predicate Takes(s: Snapshot, whole: bool, x: nat) {
    if whole then Open(s, x) else Covers(s.gaps, x)
  }

  /** All of that lies below the highest milestone, but for the last gap. */
  ghost predicate Bounded(s: Snapshot, whole: bool, highest: nat) {
    && (forall i :: 0 <= i < |s.gaps| ==> EndOk(s.gaps[i].end, highest))
    && (whole ==> forall i :: 0 <= i < |s.unlogged| ==> EndOk(s.unlogged[i].end, highest))
  }

  /** The sync table fits what was handed over: nothing of that is to be taken up below the highest milestone. */
  ghost predicate Agrees(s: State, whole: bool) {
    && Bounded(s.syncData, whole, s.highest)
    && forall x: nat :: x < s.highest && Takes(s.syncData, whole, x) ==> Count(s.sent.archived, x) == 0
  }

  // ------------------------------------------------------------------------------------------------------------
  // At most once
  // ------------------------------------------------------------------------------------------------------------

  /** `x` has been handed over, or still can be. */
  ghost function Load(s: State, whole: bool, x: nat): nat {
    Count(s.sent.archived, x) + One(s.active.Some? && s.gap.next <= x < s.active.value.range.end)
      + One(x < s.highest && Takes(s.syncData, whole, x))
  }

  ghost predicate Frame(s: State, whole: bool) {
    && Tidy(s.syncData) && Bounded(s.syncData, whole, s.highest)
    && s.highest <= LAST_GAP_END && s.sent.frontier.Some? && s.highest < s.sent.frontier.value
    && (s.active.Some? ==> s.active.value.range.end <= s.highest && (s.active.value.Complete? ==> whole))
    && AllSendable(s.sent.archived, s.sent.frontier.value)
  }

  /** Every milestone was handed over, or still will be, at most once. */
  ghost predicate Once(s: State, whole: bool) {
    Frame(s, whole) && forall x: nat :: Load(s, whole, x) <= 1
  }

  /** No data are handed over, and nothing more becomes active or open. */
  ghost predicate Still(s: State, t: State) {
    && t.syncData == s.syncData && t.highest == s.highest && t.sent.frontier == s.sent.frontier
    && (t.active.Some? ==>
          && s.active.Some? && t.active.value.range.end == s.active.value.range.end && t.gap.next == s.gap.next
          && t.active.value.Complete? == s.active.value.Complete?)
    && (t.sent.archived == s.sent.archived || exists n :: t.sent.archived == s.sent.archived + [Close(n)])
  }

  lemma StillOnce(s: State, t: State, whole: bool)
    requires Once(s, whole) && Still(s, t)
    ensures Once(t, whole)
  {
    forall x: nat
      ensures Load(t, whole, x) <= 1
    {
      if t.sent.archived != s.sent.archived {
        var n :| t.sent.archived == s.sent.archived + [Close(n)];
        CountSnoc(s.sent.archived, Close(n), x);
      }
      assert Load(t, whole, x) <= Load(s, whole, x);
    }
  }

  lemma {:induction false} AbsorbKeepsBounded(r: Range, s: Snapshot, highest: nat)
    requires EndOk(r.end, highest) && Bounded(s, true, highest)
    ensures EndOk(Absorb(r, s).0.end, highest) && Bounded(Absorb(r, s).1, true, highest)
    decreases s.Size()
  {
    var l := Lowest(s);
    if l.Some? && l.value.start == r.end {
      AbsorbKeepsBounded(Range(r.start, l.value.end), DropLowest(s), highest);
    }
  }

  lemma TakeKeepsBounded(s: Snapshot, complete: bool, highest: nat, whole: bool)
    requires Bounded(s, whole, highest) && (complete ==> whole)
    ensures var (r, rest) := if complete then TakeUncomplete(s) else TakeGap(s);
            Bounded(rest, whole, highest) && (r.Some? ==> EndOk(r.value.end, highest))
  {
    if complete && Lowest(s).Some? {
      AbsorbKeepsBounded(Lowest(s).value, DropLowest(s), highest);
    }
  }

  lemma TakesMove(s: Snapshot, whole: bool, complete: bool, x: nat)
    requires Tidy(s) && (complete ==> whole)
    ensures var (r, rest) := if complete then TakeUncomplete(s) else TakeGap(s);
            r.Some? ==>
              && (Takes(s, whole, x) <==> r.value.Has(x) || Takes(rest, whole, x))
              && !(r.value.Has(x) && Takes(rest, whole, x))
              && (complete == whole && Takes(rest, whole, x) ==> r.value.end < x)
  {
    TakeMoves(s, complete, x);
    if complete {
      if TakeUncomplete(s).0.Some? { TakeUncompleteTakesRun(s, x); }
    } else if s.gaps != [] {
      LastRange(s.gaps, x);
    }
  }

  /** What is taken moves from open to active; what lies above the highest milestone is dropped. */
  lemma TakeOnce(s: State, complete: bool, gap: Range, whole: bool)
    requires Once(s, whole) && s.active.None? && (complete ==> whole)
    requires var r := (if complete then TakeUncomplete(s.syncData) else TakeGap(s.syncData)).0;
             r.Some? && gap.start == r.value.start && gap.end <= r.value.end
    ensures var rest := (if complete then TakeUncomplete(s.syncData) else TakeGap(s.syncData)).1;
            && Once(s.(syncData := rest), whole)
            && (gap.end <= s.highest ==> Once(Start(s.(syncData := rest), gap, complete), whole))
  {
    var (r, rest) := if complete then TakeUncomplete(s.syncData) else TakeGap(s.syncData);
    TakeIsTidy(s.syncData, complete);
    TakeKeepsBounded(s.syncData, complete, s.highest, whole);
    var t := s.(syncData := rest);
    var u := Start(t, gap, complete);
    forall x: nat
      ensures Load(t, whole, x) <= 1
      ensures gap.end <= s.highest ==> Load(u, whole, x) <= 1
    {
      TakesMove(s.syncData, whole, complete, x);
      assert Load(s, whole, x) <= 1;
    }
  }

  // ------------------------------------------------------------------------------------------------------------
  // Every handler keeps this
  // ------------------------------------------------------------------------------------------------------------

  lemma {:induction false} TriggerKeepsOnce(c: Config, s: State, whole: bool)
    requires Once(s, whole)
    ensures Once(TriggerProcessMore(c, s), whole)
    decreases s.syncData.Size(), One(s.active.Some?), 1
  {
    if s.pending == 0 {
      assert TriggerProcessMore(c, s) == ProcessMore(c, s);
      if s.active.None? { StillOnce(s, ProcessMore(c, s), whole); } else { ProcessKeepsOnce(c, s, whole); }
    }
  }

  lemma {:induction false} ProcessKeepsOnce(c: Config, s: State, whole: bool)
    requires Once(s, whole) && s.active.Some?
    ensures Once(ProcessMore(c, s), whole)
    decreases s.syncData.Size(), 1, 0
  {
    var t := RequestFromActive(s, c.parallelism);
    var u := CloseLogFile(c, t).(active := None);
    StillOnce(s, t, whole);
    StillOnce(s, u, whole);
    if Remaining(s.active.value) < c.parallelism && t.pending == 0 {
      TakeNextOnce(c, u, t.active.value.Complete?, whole);
    }
  }

  lemma {:induction false} TakeNextOnce(c: Config, s: State, complete: bool, whole: bool)
    requires Once(s, whole) && s.active.None? && (complete ==> whole)
    ensures Once(TakeNext(c, s, complete), whole)
    decreases s.syncData.Size(), 0, 2
  {
    var (r, rest) := if complete then TakeUncomplete(s.syncData) else TakeGap(s.syncData);
    var t := s.(syncData := rest);
    if r.None? {
      TriggerKeepsOnce(c, t, whole);
    } else {
      TakeKeepsBounded(s.syncData, complete, s.highest, whole);
      var gap := if r.value.end != LAST_GAP_END then r.value else Range(r.value.start, s.highest);
      if r.value.end != LAST_GAP_END || s.highest > r.value.start {
        TakeOnce(s, complete, gap, whole);
        TriggerKeepsOnce(c, Start(t, gap, complete), whole);
      } else {
        TakeOnce(s, complete, r.value, whole);
        TriggerKeepsOnce(c, t, whole);
      }
    }
  }

  /** Handing over the head of the heap: `next` moves from still to come to handed over. */
  lemma FlushOneKeepsOnce(c: Config, s: State, out: multiset<nat>, whole: bool)
    requires Once(s, whole) && Progress(s, out) && s.heap != [] && s.heap[0].index == s.gap.next
    ensures Once(FlushOne(c, s), whole)
  {
    var t, e := FlushOne(c, s), Data(s.heap[0], Some(s.gap.end));
    HeadCount(s.heap, s.gap.next);
    assert Owed(s, out, s.gap.next) >= 1;
    assert Sendable(e, s.sent.frontier.value);
    forall x: nat
      ensures Load(t, whole, x) <= 1
    {
      CountSnoc(s.sent.archived, e, x);
      assert Load(t, whole, x) <= Load(s, whole, x);
    }
  }

  lemma {:induction false} FlushKeepsOnce(c: Config, s: State, out: multiset<nat>, l: Log, whole: bool)
    requires Once(s, whole) && Progress(s, out) && Logs(c, s, l) && l.asked == s.active.value.range.start
    ensures Once(Flush(c, s), whole)
    decreases |s.heap|
  {
    if s.heap != [] && s.heap[0].index == s.gap.next {
      FlushOneKeepsOnce(c, s, out, whole);
      var m := FlushOneKeepsProgress(c, s, out, l);
      FlushKeepsOnce(c, FlushOne(c, s), out, m, whole);
    }
  }

  lemma ArrivalKeepsOnce(c: Config, s: State, out: multiset<nat>, d: MilestoneData, l: Log, whole: bool)
    requires Main(c, s, out) && Logs(c, s, l) && Once(s, whole)
    requires Collecting(c, s, out) && !s.skip && d.index in out && d.createdBy.Syncer?
    ensures Once(HandleMilestoneData(c, s, d), whole)
  {
    var t := Buffered(s, d);
    var asked := BufferedKeepsProgress(c, s, out, d);
    BufferedLogs(c, s, d, l);
    StillOnce(s, t, whole);
    FlushKeepsOnce(c, t, out - multiset{d.index} + multiset(asked), OnGap(t, l), whole);
    TriggerKeepsOnce(c, Flush(c, t), whole);
  }

  lemma SkipKeepsOnce(c: Config, s: State, t: State, whole: bool)
    requires Once(s, whole) && Still(s, t) && t.active.Some?
    ensures Once(TriggerProcessMore(c, HandleSkip(t)), whole)
  {
    StillOnce(s, t, whole);
    StillOnce(t, HandleSkip(t), whole);
    TriggerKeepsOnce(c, HandleSkip(t), whole);
  }

  /** Main step: whatever outstanding reply arrives, no milestone can be handed over twice. */
  lemma ReplyKeepsOnce(c: Config, s: State, out: multiset<nat>, r: Reply, l: Log, whole: bool)
    requires Main(c, s, out) && Logs(c, s, l) && Once(s, whole)
    requires r.Index() in out && (r.Collected? ==> r.data.createdBy.Syncer?)
    ensures AcceptsReply(s) && Once(HandleReply(c, s, r), whole)
  {
    if r.Unreachable? {
      SkipKeepsOnce(c, s, s.(pending := s.pending - 1, sent := s.sent.(alerts := s.sent.alerts + [r.index])), whole);
    } else if s.skip {
      SkipKeepsOnce(c, s, s.(pending := s.pending - 1, heap := Push(s.heap, r.data)), whole);
    } else {
      ArrivalKeepsOnce(c, s, out, r.data, l, whole);
    }
  }

  lemma AskedKeepsOnce(c: Config, s: State, whole: bool)
    requires Once(s, whole) && s.active.None? && (s.firstAsk == Some(AskComplete) ==> whole)
    ensures Once(CompleteOrFillGaps(c, s), whole)
  {
    if s.firstAsk == Some(AskComplete) || s.firstAsk == Some(AskFillGaps) {
      TakeNextOnce(c, s, s.firstAsk == Some(AskComplete), whole);
    }
  }

  /** A table that fits what was handed over, read anew. */
  lemma ReadOnce(s: State, fetched: Snapshot, whole: bool)
    requires Once(s, whole) && s.active.None? && Tidy(fetched)
    requires Agrees(s.(syncData := fetched, eof := false), whole)
    ensures Once(s.(syncData := fetched, eof := false), whole)
  {
    var t := s.(syncData := fetched, eof := false);
    forall x: nat
      ensures Load(t, whole, x) <= 1
    {
      assert Load(s, whole, x) <= 1;
    }
  }

  /** An ask keeps this too, as long as a table that is read anew fits what was handed over. */
  lemma AskKeepsHandover(c: Config, s: State, ask: Ask, fetched: Option<Snapshot>, whole: bool)
    requires ask.AskComplete? || s.firstAsk == Some(AskComplete) ==> whole
    requires Once(s, whole) && s.highest > 0
    requires Rereads(c, s, ask, fetched) ==> Tidy(fetched.value) && Agrees(s.(syncData := fetched.value, eof := false), whole)
    ensures Once(HandleAsk(c, s, ask, fetched), whole)
  {
    if s.active.None? {
      if Rereads(c, s, ask, fetched) {
        ReadOnce(s, fetched.value, whole);
        AskedKeepsOnce(c, s.(syncData := fetched.value, eof := false), whole);
      } else if ask.AskUpdateSyncData? {
        StillOnce(s, HandleAsk(c, s, ask, fetched), whole);
      } else {
        TakeNextOnce(c, s, ask.AskComplete?, whole);
      }
    }
  }

  /** After the bootstrap each first milestone was handed over once. */
  lemma BootOnce(c: Config, s: State, whole: bool)
    requires Booting(s) && s.heap != [] && Strict(s.heap) && LastIndex(s.heap) <= LAST_GAP_END
    requires Agrees(SendFirst(c, s), whole)
    ensures Once(SendFirst(c, s), whole)
  {
    var t := SendFirst(c, s);
    var events := SendFirstSendsAll(c, s);
    assert [] + events == events;
    forall x: nat
      ensures Load(t, whole, x) <= 1
    {
      RankedOnce(t.sent.archived, x);
    }
    forall i | 0 <= i < |events|
      ensures Sendable(events[i], t.sent.frontier.value)
    {
      assert events[i] in events;
      assert Due(s.heap, events[i]);
    }
  }

  lemma BootKeepsAsk(c: Config, s: State)
    requires s.heap != [] && Strict(s.heap)
    ensures SendFirst(c, s).firstAsk == s.firstAsk
  {
    var events := SendFirstSendsAll(c, s);
  }

  lemma BootEndOnce(c: Config, s: State, d: MilestoneData, whole: bool)
    requires Booting(s) && s.pending == 1 && d.createdBy.Syncer?
    requires Strict(Push(s.heap, d)) && LastIndex(Push(s.heap, d)) <= LAST_GAP_END
    requires Agrees(SendFirst(c, s.(pending := 0, heap := Push(s.heap, d))), whole)
    requires s.firstAsk == Some(AskComplete) ==> whole
    ensures AcceptsReply(s) && Once(HandleMilestoneData(c, s, d), whole)
  {
    var u := s.(pending := 0, heap := Push(s.heap, d));
    PushFromSyncer(s.heap, d);
    LastArrival(c, s, d);
    BootOnce(c, u, whole);
    BootKeepsAsk(c, u);
    AskedKeepsOnce(c, SendFirst(c, u), whole);
    TriggerKeepsOnce(c, CompleteOrFillGaps(c, SendFirst(c, u)), whole);
  }
}
