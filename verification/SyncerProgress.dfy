/** That the Syncer goes on: it takes up the lowest open run, keeps its window of requests full, and when it has nothing left
    to do it notes the end and schedules the next reading of the sync table, from which it takes up work again. */
module SyncerProgress {
  import opened Types
  import opened Ranges
  import opened SyncTable
  import opened SyncerSpec
  import opened SyncerProofs
  import opened SyncerBootstrap
  import opened SyncerHandover

  // ------------------------------------------------------------------------------------------------------------
  // Taking up work
  // ------------------------------------------------------------------------------------------------------------

  /** `gap` is the lowest maximal run of what is to be taken up; the last run of the table ends at the highest milestone. */
  ghost predicate LowestRun(table: Snapshot, whole: bool, highest: nat, gap: Range) {
    && gap.start < gap.end
    && (forall y: nat :: Takes(table, whole, y) ==> gap.start <= y)
    && exists end: nat :: RunEndsAt(table, whole, gap.start, end) && gap.end == if end == LAST_GAP_END then highest else end
  }

  ghost predicate RunEndsAt(table: Snapshot, whole: bool, start: nat, end: nat) {
    (forall y: nat :: start <= y < end ==> Takes(table, whole, y)) && !Takes(table, whole, end)
  }

  lemma TakenIsLowest(table: Snapshot, whole: bool, x: nat)
    requires Tidy(table)
    ensures var (r, rest) := if whole then TakeUncomplete(table) else TakeGap(table);
            && (r.None? ==> !Takes(table, whole, x))
            && (r.Some? ==> r.value.start < r.value.end && (Takes(table, whole, x) ==> r.value.start <= x)
                            && (r.value.Has(x) ==> Takes(table, whole, x)) && (x == r.value.end ==> !Takes(table, whole, x)))
  {
    if whole {
      if TakeUncomplete(table).0.Some? { TakeUncompleteTakesRun(table, x); }
    } else if table.gaps != [] {
      LastRange(table.gaps, x);
    }
  }

  /** Every request that the gap and the parallelism allow has been sent. */
  ghost predicate WindowFull(c: Config, s: State) {
    s.active.Some? && !s.skip ==> s.pending == c.parallelism || s.active.value.range.start >= s.active.value.range.end
  }

  /** The Syncer began on the lowest run: it requested its first index first, and filled its window. */
  ghost predicate Begins(c: Config, s: State, t: State, whole: bool) {
    && t.active.Some? && t.active.value.Complete? == whole && WindowFull(c, t)
    && LowestRun(s.syncData, whole, s.highest, Range(t.gap.start, t.gap.end))
    && |t.sent.requested| > |s.sent.requested| && t.sent.requested[|s.sent.requested|] == t.gap.start
    && t.eof == s.eof && t.sent.scheduled == s.sent.scheduled
  }

  /** The Syncer found nothing to take up below the highest milestone; it noted the end and scheduled the next reading. */
  ghost predicate Rests(s: State, t: State, whole: bool) {
    && t.active.None? && t.eof && t.sent.scheduled > s.sent.scheduled && t.sent.requested == s.sent.requested
    && (forall y: nat :: Takes(s.syncData, whole, y) ==> s.highest <= y)
    && forall y: nat :: Takes(t.syncData, whole, y) ==> Takes(s.syncData, whole, y)
  }

  ghost predicate GoesOn(c: Config, s: State, t: State, whole: bool) {
    Begins(c, s, t, whole) || Rests(s, t, whole)
  }

  lemma StartBegins(c: Config, s: State, u: State, gap: Range, whole: bool)
    requires c.parallelism > 0 && s.highest > 0
    requires Idle(u, multiset{}) && Tidy(u.syncData) && u == s.(syncData := u.syncData)
    requires LowestRun(s.syncData, whole, s.highest, gap)
    ensures Begins(c, s, TriggerProcessMore(c, Start(u, gap, whole)), whole)
  {
    StartRequests(c, u, gap, whole);
    var v := Start(u, gap, whole);
    assert TriggerProcessMore(c, v) == RequestFromActive(v, c.parallelism);
    assert RequestFromActive(v, c.parallelism).sent.requested[|s.sent.requested|] == gap.start;
  }

  /** What taking the next run or gap comes to. */
  lemma TakeNextProgresses(c: Config, s: State, whole: bool) returns (t: State)
    requires c.parallelism > 0 && s.highest > 0
    requires Idle(s, multiset{}) && Tidy(s.syncData)
    ensures t == TakeNext(c, s, whole) && GoesOn(c, s, t, whole)
  {
    t := TakeNext(c, s, whole);
    var (r, rest) := if whole then TakeUncomplete(s.syncData) else TakeGap(s.syncData);
    var u := s.(syncData := rest);
    TakeIsTidy(s.syncData, whole);
    forall x: nat
      ensures (r.None? ==> !Takes(s.syncData, whole, x))
      ensures r.Some? ==> (Takes(s.syncData, whole, x) ==> r.value.start <= x)
                          && (r.value.Has(x) ==> Takes(s.syncData, whole, x)) && (x == r.value.end ==> !Takes(s.syncData, whole, x))
      ensures Takes(rest, whole, x) ==> Takes(s.syncData, whole, x)
    {
      TakenIsLowest(s.syncData, whole, x);
      RestIsLess(s.syncData, whole, x);
    }
    if r.Some? && (r.value.end != LAST_GAP_END || s.highest > r.value.start) {
      var gap := if r.value.end != LAST_GAP_END then r.value else Range(r.value.start, s.highest);
      assert RunEndsAt(s.syncData, whole, gap.start, r.value.end);
      StartBegins(c, s, u, gap, whole);
    } else {
      assert TriggerProcessMore(c, u) == ProcessMore(c, u);
    }
  }

  lemma RestIsLess(table: Snapshot, whole: bool, x: nat)
    requires Tidy(table)
    ensures var rest := if whole then TakeUncomplete(table).1 else TakeGap(table).1; Takes(rest, whole, x) ==> Takes(table, whole, x)
  {
    if whole {
      if TakeUncomplete(table).0.Some? { TakeUncompleteTakesRun(table, x); }
    } else if table.gaps != [] {
      LastRange(table.gaps, x);
    }
  }

  // ------------------------------------------------------------------------------------------------------------
  // Replies
  // ------------------------------------------------------------------------------------------------------------

  /** An idle Syncer has noted the end and scheduled a reading of the sync table, and nothing is left in its table that is
      missing below the highest milestone. */
  ghost predicate Ended(s: State) {
    s.active.None? ==> s.eof && s.sent.scheduled > 0 && forall y: nat :: Covers(s.syncData.gaps, y) ==> s.highest <= y
  }

  /** The window is full, and if the Syncer went idle it scheduled the next reading of the table. */
  ghost predicate Progresses(c: Config, s: State, t: State) {
    WindowFull(c, t) && Ended(t) && (t.active.None? ==> t.sent.scheduled > s.sent.scheduled)
  }

  lemma OutcomeProgresses(c: Config, s: State, t: State, whole: bool)
    requires GoesOn(c, s, t, whole)
    requires t.highest == s.highest
    ensures Progresses(c, s, t)
  {
    if t.active.None? {
      forall y: nat | Covers(t.syncData.gaps, y)
        ensures s.highest <= y
      {
        assert Takes(t.syncData, whole, y);
      }
    }
  }

  /** A finished gap: the next one is taken. */
  lemma FinishProgresses(c: Config, s: State)
    requires c.parallelism > 0 && s.highest > 0 && Tidy(s.syncData) && Finished(s)
    ensures Progresses(c, s, TriggerProcessMore(c, s))
  {
    var u, whole := CloseLogFile(c, s).(active := None), s.active.value.Complete?;
    RequestNone(s);
    RequestAll(s, c.parallelism);
    assert TriggerProcessMore(c, s) == TakeNext(c, u, whole);
    var t := TakeNextProgresses(c, u, whole);
    var news := TakeNextStarts(c, u, whole);
    OutcomeProgresses(c, u, t, whole);
  }

  lemma ArrivalProgresses(c: Config, s: State, out: multiset<nat>, d: MilestoneData, l: Log)
    requires Main(c, s, out) && Collecting(c, s, out) && !s.skip && Logs(c, s, l) && WindowFull(c, s)
    requires d.index in out && d.createdBy.Syncer?
    ensures Progresses(c, s, HandleMilestoneData(c, s, d))
  {
    var asked, m := ArrivalFlushes(c, s, out, d, l);
    var t := Flush(c, Buffered(s, d));
    FlushFrame(c, Buffered(s, d));
    if t.pending == 0 {
      assert out - multiset{d.index} + multiset(asked) == multiset{};
      NothingLeft(t);
      FinishProgresses(c, t);
    }
  }

  /** Handing over touches nothing but the heap, the next index and the Archiver's events. */
  lemma {:induction false} FlushFrame(c: Config, s: State)
    ensures var t := Flush(c, s);
            t == s.(heap := t.heap, gap := s.gap.(next := t.gap.next), sent := s.sent.(archived := t.sent.archived))
    decreases |s.heap|
  {
    if s.heap != [] && s.heap[0].index == s.gap.next { FlushFrame(c, FlushOne(c, s)); }
  }

  lemma SkipProgresses(c: Config, s: State, out: multiset<nat>)
    requires c.parallelism > 0 && s.highest > 0 && Tidy(s.syncData)
    requires s.active.Some? && Skipping(s, out)
    requires s.gap.start < s.gap.end == s.active.value.range.end
    requires s.gap.start <= s.gap.next <= s.active.value.range.start <= s.gap.end
    ensures Progresses(c, s, TriggerProcessMore(c, HandleSkip(s)))
  {
    if s.pending == 0 { FinishProgresses(c, HandleSkip(s)); }
  }

  /** Main step: whatever outstanding reply arrives, the window stays full; and if nothing is left to do, the Syncer notes
      the end and schedules the next reading. */
  lemma ReplyProgresses(c: Config, s: State, out: multiset<nat>, r: Reply, l: Log)
    requires Main(c, s, out) && Logs(c, s, l) && WindowFull(c, s)
    requires r.Index() in out && (r.Collected? ==> r.data.createdBy.Syncer?)
    ensures AcceptsReply(s) && Progresses(c, s, HandleReply(c, s, r))
  {
    if r.Unreachable? {
      AlertGrows(c, s, r.index, out, l);
      SkipProgresses(c, s.(pending := s.pending - 1, sent := s.sent.(alerts := s.sent.alerts + [r.index])), out - multiset{r.index});
    } else if s.skip {
      PushInRange(s.heap, r.data, s.gap.start, s.active.value.range.start);
      SkipProgresses(c, s.(pending := s.pending - 1, heap := Push(s.heap, r.data)), out - multiset{r.data.index});
    } else {
      ArrivalProgresses(c, s, out, r.data, l);
    }
  }

  // ------------------------------------------------------------------------------------------------------------
  // Asks
  // ------------------------------------------------------------------------------------------------------------

  /** The Syncer was told what to start on, and so goes on with that after every reading of the table. */
  predicate Told(s: State) {
    s.firstAsk == Some(AskComplete) || s.firstAsk == Some(AskFillGaps)
  }

  /** An ask to complete the table or to fill its gaps makes an idle Syncer take up the lowest run of that kind. */
  lemma AskTakesUp(c: Config, s: State, ask: Ask, fetched: Option<Snapshot>)
    requires Main(c, s, multiset{}) && s.active.None? && !ask.AskUpdateSyncData?
    ensures var t := HandleAsk(c, s, ask, fetched); GoesOn(c, s, t, ask.AskComplete?)
  {
    var t := TakeNextProgresses(c, s, ask.AskComplete?);
  }

  /** Reading the table again makes an idle Syncer that has noted the end take up the lowest run of the new table, if it was
      told what to start on, and else wait for ever; a reading that fails is scheduled again. */
  lemma RereadTakesUp(c: Config, s: State, fetched: Option<Snapshot>)
    requires Main(c, s, multiset{}) && s.active.None? && s.eof && c.ranged
    requires fetched.Some? ==> Tidy(fetched.value)
    ensures var t := HandleAsk(c, s, AskUpdateSyncData, fetched);
            match fetched
            case None => t == s.(sent := s.sent.(scheduled := s.sent.scheduled + 1))
            case Some(table) =>
              var u := s.(syncData := table, eof := false);
              if Told(s) then GoesOn(c, u, t, s.firstAsk == Some(AskComplete)) else t == u
  {
    if fetched.Some? && Told(s) {
      var t := TakeNextProgresses(c, s.(syncData := fetched.value, eof := false), s.firstAsk == Some(AskComplete));
    }
  }

  /** Asks keep all this. */
  lemma AskProgresses(c: Config, s: State, out: multiset<nat>, ask: Ask, fetched: Option<Snapshot>)
    requires Main(c, s, out) && WindowFull(c, s) && (Told(s) ==> Ended(s))
    requires fetched.Some? ==> Tidy(fetched.value)
    ensures var t := HandleAsk(c, s, ask, fetched); WindowFull(c, t) && (Told(t) ==> Ended(t))
  {
    var t := HandleAsk(c, s, ask, fetched);
    if s.active.None? && !ask.AskUpdateSyncData? {
      AskTakesUp(c, s, ask, fetched);
      var news := TakeNextStarts(c, s, ask.AskComplete?);
      OutcomeProgresses(c, s, t, ask.AskComplete?);
    } else if s.active.None? && s.eof && c.ranged {
      RereadTakesUp(c, s, fetched);
      if fetched.Some? && Told(s) {
        var u, whole := s.(syncData := fetched.value, eof := false), s.firstAsk == Some(AskComplete);
        var news := TakeNextStarts(c, u, whole);
        OutcomeProgresses(c, u, t, whole);
      }
    }
  }

  // ------------------------------------------------------------------------------------------------------------
  // The bootstrap
  // ------------------------------------------------------------------------------------------------------------

  /** With the table as it was: the Syncer works on the lowest run, or nothing is to be taken up below the highest
      milestone. */
  ghost predicate WorksOnLowest(table: Snapshot, whole: bool, t: State) {
    if t.active.Some?
    then t.active.value.Complete? == whole && LowestRun(table, whole, t.highest, Range(t.gap.start, t.gap.end))
    else t.eof && forall y: nat :: Takes(table, whole, y) ==> t.highest <= y
  }

  lemma ToldProgresses(c: Config, s: State) returns (t: State)
    requires c.parallelism > 0 && s.highest > 0 && Told(s)
    requires Idle(s, multiset{}) && Tidy(s.syncData)
    ensures t == TriggerProcessMore(c, CompleteOrFillGaps(c, s))
    ensures Progresses(c, s, t) && WorksOnLowest(s.syncData, s.firstAsk == Some(AskComplete), t)
  {
    var whole := s.firstAsk == Some(AskComplete);
    t := TakeNextProgresses(c, s, whole);
    var news := TakeNextStarts(c, s, whole);
    OutcomeProgresses(c, s, t, whole);
    if t.active.None? {
      assert TriggerProcessMore(c, t) == Schedule(t.(eof := true));
      t := Schedule(t.(eof := true));
    } else {
      assert TriggerProcessMore(c, t) == t;
    }
  }

  /** When the bootstrap ends, the Syncer starts on the lowest run of the kind it was told; if there is none below the
      highest milestone, or it was not told, it notes the end and schedules the next reading. */
  lemma BootTakesUp(c: Config, s: State, d: MilestoneData) returns (t: State)
    requires c.parallelism > 0
    requires Booting(s) && s.pending == 1 && d.createdBy.Syncer?
    requires Strict(Push(s.heap, d)) && Push(s.heap, d)[0].index > 0
    ensures AcceptsReply(s) && t == HandleMilestoneData(c, s, d)
    ensures WindowFull(c, t) && (t.active.None? ==> t.eof && t.sent.scheduled > s.sent.scheduled)
    ensures if Told(s) then Ended(t) && WorksOnLowest(s.syncData, s.firstAsk == Some(AskComplete), t) else t.active.None?
  {
    var u := s.(pending := 0, heap := Push(s.heap, d));
    LastArrival(c, s, d);
    var l := BootLog(c, u);
    var v := BootState(c, u);
    if Told(s) {
      t := ToldProgresses(c, v);
    } else {
      assert TriggerProcessMore(c, v) == Schedule(v.(eof := true));
      t := Schedule(v.(eof := true));
    }
  }

  lemma BootState(c: Config, s: State) returns (v: State)
    requires s.heap != [] && Strict(s.heap)
    ensures v == SendFirst(c, s) && v.syncData == s.syncData && v.firstAsk == s.firstAsk && v.active == s.active
    ensures v.pending == s.pending && v.sent.scheduled == s.sent.scheduled
  {
    v := SendFirst(c, s);
    var events := SendFirstSendsAll(c, s);
  }

  /** An ask that comes before the bootstrap is over decides what the Syncer starts on. */
  lemma EarlyAskDecides(c: Config, s: State, ask: Ask, fetched: Option<Snapshot>, d: MilestoneData) returns (t: State)
    requires c.parallelism > 0 && !ask.AskUpdateSyncData?
    requires Booting(s) && s.pending == 1 && d.createdBy.Syncer?
    requires Strict(Push(s.heap, d)) && Push(s.heap, d)[0].index > 0
    ensures var u := HandleAsk(c, s, ask, fetched); AcceptsReply(u) && t == HandleMilestoneData(c, u, d)
    ensures WorksOnLowest(s.syncData, ask.AskComplete?, t)
  {
    t := BootTakesUp(c, HandleAsk(c, s, ask, fetched), d);
  }
}
