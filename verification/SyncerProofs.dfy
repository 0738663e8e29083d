/** What every handler of the Syncer keeps, whatever order replies arrive in. */
module SyncerProofs {
  import opened Types
  import opened Ranges
  import opened SyncTable
  import opened SyncerSpec

  // ------------------------------------------------------------------------------------------------------------
  // Invariant after the bootstrap. `out` is the bag of indexes requested and not answered yet.
  // ------------------------------------------------------------------------------------------------------------

  /** Nothing is in progress. */
  ghost predicate Idle(s: State, out: multiset<nat>) {
    s.active.None? && s.pending == 0 && s.heap == [] && !s.skip && out == multiset{}
  }

  /** A gap is in progress: its first indexes up to the active range have been requested. */
  ghost predicate Collecting(c: Config, s: State, out: multiset<nat>) {
    && s.active.Some?
    && s.gap.start < s.gap.end == s.active.value.range.end
    && s.gap.start <= s.gap.next <= s.active.value.range.start <= s.gap.end
    && 0 < s.pending <= c.parallelism
    && s.pending == |out|
    && (if s.skip then Skipping(s, out) else InOrder(s, out))
  }

  /** The requested indexes from `next` on are, each once, outstanding or in the heap; `next` itself is not in the heap. */
  ghost predicate InOrder(s: State, out: multiset<nat>)
    requires s.active.Some?
  {
    && Sorted(s.heap)
    && (forall x: nat :: Owed(s, out, x) == (if s.gap.next <= x < s.active.value.range.start then 1 else 0))
    && (s.heap != [] ==> s.heap[0].index != s.gap.next)
  }

  ghost function Owed(s: State, out: multiset<nat>, x: nat): nat {
    out[x] + multiset(Indexes(s.heap))[x]
  }

  /** An index of the gap could not be reached; what is still outstanding belongs to the gap and will be dropped. */
  ghost predicate Skipping(s: State, out: multiset<nat>)
    requires s.active.Some?
  {
    && AlertIn(s, s.gap.start, s.gap.end)
    && (forall x :: x in out ==> s.gap.start <= x < s.active.value.range.start)
    && forall i :: 0 <= i < |s.heap| ==> s.gap.start <= s.heap[i].index < s.active.value.range.start
  }

  ghost predicate AlertIn(s: State, from: nat, to: nat) {
    exists a :: a in s.sent.alerts && from <= a < to
  }

  ghost predicate AllFromSyncer(h: seq<MilestoneData>) {
    forall i :: 0 <= i < |h| ==> h[i].createdBy.Syncer?
  }

  ghost predicate Main(c: Config, s: State, out: multiset<nat>) {
    && c.parallelism > 0
    && s.highest > 0
    && Tidy(s.syncData)
    && AllFromSyncer(s.heap)
    && (Idle(s, out) || Collecting(c, s, out))
  }

  // ------------------------------------------------------------------------------------------------------------
  // What the Archiver receives
  // ------------------------------------------------------------------------------------------------------------

  /** A gap the Syncer is done with: of start .. end it requested start .. asked and handed over start .. next, and then
      closed the file or not. */
  datatype GapRun = GapRun(start: nat, end: nat, asked: nat, next: nat, closed: bool)

  /** Exactly the data of the indexes from .. to, in order, each once, and all limited by `end`. */
  ghost predicate DataOf(events: seq<ArchiverEvent>, from: nat, to: nat, end: nat) {
    && from <= to && |events| == to - from
    && forall k :: 0 <= k < |events| ==>
         events[k].Data? && events[k].data.index == from + k && events[k].data.createdBy.Syncer?
         && events[k].upperLimit == Some(end)
  }

  ghost predicate EventsOf(events: seq<ArchiverEvent>, run: GapRun) {
    if run.closed
    then events != [] && events[|events| - 1] == Close(run.next) && DataOf(events[..|events| - 1], run.start, run.next, run.end)
    else DataOf(events, run.start, run.next, run.end)
  }

  /** The events after the bootstrap, gap by gap, and how far the gap in progress has been requested. */
  datatype Log = Log(boot: seq<ArchiverEvent>, segments: seq<seq<ArchiverEvent>>, runs: seq<GapRun>, current: seq<ArchiverEvent>,
                     asked: nat)

  /** A gap was handed over in full unless one of its milestones could not be reached. */
  ghost predicate RunOk(s: State, run: GapRun) {
    && run.start <= run.next <= run.asked <= run.end
    && (run.next < run.end ==> AlertIn(s, run.start, run.end))
  }

  /** The indexes from .. to in order, if there are any. */
  function Span(from: nat, to: nat): seq<nat> {
    if from <= to then Iota(from, to) else []
  }

  /** What was requested of the finished gaps. */
  function RequestsOf(runs: seq<GapRun>): seq<nat> {
    if runs == [] then []
    else RequestsOf(runs[..|runs| - 1]) + Span(runs[|runs| - 1].start, runs[|runs| - 1].asked)
  }

  lemma RequestsSnoc(runs: seq<GapRun>, run: GapRun)
    ensures RequestsOf(runs + [run]) == RequestsOf(runs) + Span(run.start, run.asked)
  {
    assert (runs + [run])[..|runs|] == runs;
  }

  /** The gaps announced are the finished ones in order, and last the one in progress. */
  ghost predicate Announced(s: State, l: Log) {
    && |s.sent.taken| == |l.runs| + (if s.active.Some? then 1 else 0)
    && (forall i :: 0 <= i < |l.runs| ==> s.sent.taken[i] == Range(l.runs[i].start, l.runs[i].end))
    && (s.active.Some? ==> s.sent.taken[|l.runs|] == Range(s.gap.start, s.gap.end))
  }

  /** Nothing is outstanding, and nothing left to request. */
  ghost predicate Over(s: State) {
    s.active.Some? && s.pending == 0 && Remaining(s.active.value) == 0
  }

  /** The requests are, gap by gap, the indexes from the start on. */
  ghost predicate Requested(s: State, l: Log) {
    && s.sent.requested == RequestsOf(l.runs) + (if s.active.Some? then Span(s.gap.start, l.asked) else [])
    && (s.active.Some? ==>
          s.gap.start <= s.gap.next <= l.asked <= s.gap.end && (l.asked == s.active.value.range.start || Over(s)))
  }

  /** Finished gaps, each with exactly its events. */
  ghost predicate RunsOk(s: State, l: Log) {
    |l.segments| == |l.runs| && forall i :: 0 <= i < |l.runs| ==> EventsOf(l.segments[i], l.runs[i]) && RunOk(s, l.runs[i])
  }

  /** What the Archiver received: the finished gaps, then the data of the gap in progress up to `next`. */
  ghost predicate Archived(c: Config, s: State, l: Log) {
    && (if s.active.Some? then DataOf(l.current, s.gap.start, s.gap.next, s.gap.end) else l.current == [])
    && s.sent.archived == (if c.archiving then l.boot + Flatten(l.segments) + l.current else [])
  }

  /** The start of the last finished gap if its file was closed, and else 0. */
  function LastClosed(runs: seq<GapRun>): nat {
    if runs == [] || !runs[|runs| - 1].closed then 0 else runs[|runs| - 1].start
  }

  /** The file of a finished gap was closed if something of the gap was handed over, unless the file of the gap before it,
      with the same start, had just been closed. */
  ghost predicate Closes(s: State, l: Log) {
    && s.gap.prevClosed == LastClosed(l.runs)
    && forall i :: 0 <= i < |l.runs| ==>
         (l.runs[i].closed <==> l.runs[i].start < l.runs[i].next && l.runs[i].start != LastClosed(l.runs[..i]))
  }

  ghost predicate Logs(c: Config, s: State, l: Log) {
    Announced(s, l) && Requested(s, l) && RunsOk(s, l) && Archived(c, s, l) && Closes(s, l)
  }

  /** The past stays: finished gaps and their events are only added. */
  ghost predicate Extends(l: Log, m: Log) {
    m.boot == l.boot && l.segments <= m.segments && l.runs <= m.runs
  }

  lemma {:induction false} FlattenSnoc<T>(pages: seq<seq<T>>, page: seq<T>)
    ensures Flatten(pages + [page]) == Flatten(pages) + page
    decreases |pages|
  {
    if pages == [] {
      assert [page][1..] == [];
      assert pages + [page] == [page];
    } else {
      FlattenSnoc(pages[1..], page);
      assert (pages + [page])[1..] == pages[1..] + [page];
      assert pages[0] + (Flatten(pages[1..]) + page) == Flatten(pages) + page;
    }
  }

  // ------------------------------------------------------------------------------------------------------------
  // Taking the next gap
  // ------------------------------------------------------------------------------------------------------------

  ghost predicate Requests(s: State, t: State, news: seq<nat>) {
    t.sent.requested == s.sent.requested + news
  }

  /** From an idle state nothing was started, or one gap was announced and its first indexes `news` requested. */
  ghost predicate Took(s: State, t: State, news: seq<nat>) {
    && Requests(s, t, news)
    && t.sent.archived == s.sent.archived && t.sent.alerts == s.sent.alerts && t.gap.prevClosed == s.gap.prevClosed
    && (if t.active.Some?
        then t.sent.taken == s.sent.taken + [Range(t.gap.start, t.gap.end)] && t.gap.next == t.gap.start
             && t.gap.start <= t.active.value.range.start <= t.gap.end && news == Span(t.gap.start, t.active.value.range.start)
        else t.sent.taken == s.sent.taken && news == [])
  }

  /** A take that finds nothing to do, or a nonempty gap of which it requests the first indexes. */
  lemma TakeNextStarts(c: Config, s: State, complete: bool) returns (news: seq<nat>)
    requires c.parallelism > 0 && s.highest > 0
    requires Idle(s, multiset{}) && Tidy(s.syncData)
    ensures var t := TakeNext(c, s, complete);
            && Main(c, t, multiset(news)) && Took(s, t, news)
            && t.highest == s.highest && t.sent.frontier == s.sent.frontier
  {
    var t := TakeNext(c, s, complete);
    var (r, rest) := if complete then TakeUncomplete(s.syncData) else TakeGap(s.syncData);
    if r.Some? {
      TakeIsTidy(s.syncData, complete);
      var u := s.(syncData := rest);
      var gap := if r.value.end != LAST_GAP_END then r.value else Range(r.value.start, s.highest);
      if r.value.end != LAST_GAP_END || s.highest > r.value.start {
        StartRequests(c, u, gap, complete);
        news := Iota(gap.start, t.active.value.range.start);
        return;
      }
    }
    news := [];
    assert TriggerProcessMore(c, s.(syncData := rest)) == Schedule(s.(syncData := rest, eof := true)) == t;
    assert s.sent.requested + news == s.sent.requested;
    TakeIsTidy(s.syncData, complete);
  }

  lemma TakeIsTidy(s: Snapshot, complete: bool)
    requires Tidy(s)
    ensures var (r, rest) := if complete then TakeUncomplete(s) else TakeGap(s);
            Tidy(rest) && (r.Some? ==> r.value.start < r.value.end)
  {
    if complete {
      if TakeUncomplete(s).0.Some? {
        TakeUncompleteTakesRun(s, 0);
      }
    } else if s.gaps != [] {
      forall x: nat
        ensures !(Covers(s.gaps[..|s.gaps| - 1], x) && Covers(s.unlogged, x))
      {
        LastRange(s.gaps, x);
      }
    }
  }

  lemma StartRequests(c: Config, s: State, gap: Range, complete: bool)
    requires c.parallelism > 0 && s.highest > 0
    requires Idle(s, multiset{}) && Tidy(s.syncData)
    requires gap.start < gap.end
    ensures var t := TriggerProcessMore(c, Start(s, gap, complete));
            && t.active.Some? && gap.start < t.active.value.range.start <= gap.end
            && Requests(s, t, Iota(gap.start, t.active.value.range.start))
            && Main(c, t, multiset(Iota(gap.start, t.active.value.range.start)))
            && t.sent.archived == s.sent.archived && t.sent.alerts == s.sent.alerts
            && t.sent.taken == s.sent.taken + [gap] && t.gap.start == gap.start && t.gap.end == gap.end
            && t.highest == s.highest && t.gap.next == t.gap.start && t.sent.frontier == s.sent.frontier
            && t.gap.prevClosed == s.gap.prevClosed
  {
    var u := Start(s, gap, complete);
    var t := RequestFromActive(u, c.parallelism);
    assert TriggerProcessMore(c, u) == t;
    var out := multiset(Iota(gap.start, t.active.value.range.start));
    forall x: nat
      ensures Owed(t, out, x) == (if gap.start <= x < t.active.value.range.start then 1 else 0)
    {
      IotaCount(gap.start, t.active.value.range.start, x);
    }
  }

  lemma {:induction false} IotaCount(lo: nat, hi: nat, x: nat)
    requires lo <= hi
    ensures multiset(Iota(lo, hi))[x] == (if lo <= x < hi then 1 else 0)
    decreases hi
  {
    if lo < hi {
      IotaCount(lo, hi - 1, x);
      assert Iota(lo, hi) == Iota(lo, hi - 1) + [hi - 1];
    } else {
      assert Iota(lo, hi) == [];
    }
  }

  // ------------------------------------------------------------------------------------------------------------
  // Finishing a gap
  // ------------------------------------------------------------------------------------------------------------

  /** The gap's range is used up and nothing is outstanding or buffered. */
  ghost predicate Finished(s: State) {
    && s.active.Some? && Remaining(s.active.value) == 0
    && s.pending == 0 && s.heap == [] && !s.skip
    && s.gap.start <= s.gap.next <= s.gap.end
    && (s.gap.next < s.gap.end ==> AlertIn(s, s.gap.start, s.gap.end))
  }

  lemma CloseSegmentEvents(c: Config, s: State, l: Log)
    requires Finished(s) && DataOf(l.current, s.gap.start, s.gap.next, s.gap.end)
    ensures var m := CloseSegment(c, s, l); EventsOf(m.segments[|l.segments|], m.runs[|l.runs|])
  {
    assert (l.current + [Close(s.gap.next)])[..|l.current|] == l.current;
    assert l.current + [] == l.current;
  }

  lemma CloseSegmentRuns(c: Config, s: State, l: Log)
    requires Finished(s) && Requested(s, l) && RunsOk(s, l) && DataOf(l.current, s.gap.start, s.gap.next, s.gap.end)
    ensures RunsOk(CloseLogFile(c, s).(active := None), CloseSegment(c, s, l))
  {
    var t, m := CloseLogFile(c, s).(active := None), CloseSegment(c, s, l);
    CloseSegmentEvents(c, s, l);
    forall i | 0 <= i < |m.runs|
      ensures EventsOf(m.segments[i], m.runs[i]) && RunOk(t, m.runs[i])
    {
      if i < |l.runs| {
        assert RunOk(s, l.runs[i]) && m.runs[i] == l.runs[i] && m.segments[i] == l.segments[i];
      }
    }
  }

  lemma CloseSegmentSent(c: Config, s: State, l: Log)
    requires s.active.Some? && Archived(c, s, l)
    ensures Archived(c, CloseLogFile(c, s).(active := None), CloseSegment(c, s, l))
  {
    var tail := if s.gap.prevClosed != s.gap.start && s.gap.start != s.gap.next then [Close(s.gap.next)] else [];
    FlattenSnoc(l.segments, l.current + tail);
    assert l.boot + Flatten(l.segments) + l.current + tail == l.boot + (Flatten(l.segments) + (l.current + tail)) + [];
  }

  lemma CloseSegmentRequested(c: Config, s: State, l: Log)
    requires s.active.Some? && Requested(s, l)
    ensures Requested(CloseLogFile(c, s).(active := None), CloseSegment(c, s, l))
  {
    var run := GapRun(s.gap.start, s.gap.end, l.asked, s.gap.next, s.gap.prevClosed != s.gap.start && s.gap.start != s.gap.next);
    RequestsSnoc(l.runs, run);
    assert RequestsOf(l.runs + [run]) + [] == RequestsOf(l.runs + [run]);
  }

  lemma CloseSegmentAnnounced(c: Config, s: State, l: Log)
    requires s.active.Some? && Announced(s, l)
    ensures Announced(CloseLogFile(c, s).(active := None), CloseSegment(c, s, l))
  {
  }

  lemma CloseSegmentCloses(c: Config, s: State, l: Log)
    requires Finished(s) && Closes(s, l)
    ensures Closes(CloseLogFile(c, s).(active := None), CloseSegment(c, s, l))
  {
    var m := CloseSegment(c, s, l);
    assert m.runs[..|l.runs|] == l.runs;
    forall i | 0 <= i < |l.runs|
      ensures m.runs[i].closed <==> m.runs[i].start < m.runs[i].next && m.runs[i].start != LastClosed(m.runs[..i])
    {
      assert m.runs[..i] == l.runs[..i] && m.runs[i] == l.runs[i];
    }
  }

  /** The finished gap becomes the last run of the log. */
  lemma CloseSegmentLogs(c: Config, s: State, l: Log)
    requires Finished(s) && Logs(c, s, l)
    ensures Logs(c, CloseLogFile(c, s).(active := None), CloseSegment(c, s, l))
  {
    CloseSegmentRuns(c, s, l);
    CloseSegmentSent(c, s, l);
    CloseSegmentRequested(c, s, l);
    CloseSegmentAnnounced(c, s, l);
    CloseSegmentCloses(c, s, l);
  }

  /** The finished gap becomes a run of the log, and the next gap is started with an empty heap. */
  lemma FinishGap(c: Config, s: State, l: Log) returns (news: seq<nat>, m: Log)
    requires c.parallelism > 0 && s.highest > 0 && Tidy(s.syncData)
    requires Finished(s) && Logs(c, s, l)
    ensures var t := TriggerProcessMore(c, s);
            && Main(c, t, multiset(news))
            && Requests(s, t, news)
            && t.highest == s.highest && t.sent.alerts == s.sent.alerts
            && Logs(c, t, m) && m == OnGap(t, CloseSegment(c, s, l))
  {
    var u := CloseLogFile(c, s).(active := None);
    RequestNone(s);
    RequestAll(s, c.parallelism);
    assert TriggerProcessMore(c, s) == TakeNext(c, u, s.active.value.Complete?);
    news := TakeNextStarts(c, u, s.active.value.Complete?);
    CloseSegmentLogs(c, s, l);
    LogsTakeGap(c, u, TriggerProcessMore(c, s), CloseSegment(c, s, l), news);
    m := OnGap(TriggerProcessMore(c, s), CloseSegment(c, s, l));
  }

  /** The log once a gap was started, if one was. */
  function OnGap(t: State, l: Log): Log {
    if t.active.Some? then l.(asked := t.active.value.range.start) else l
  }

  /** The log of an idle Syncer when a gap is started. */
  lemma LogsTakeGap(c: Config, s: State, t: State, l: Log, news: seq<nat>)
    requires s.active.None? && Logs(c, s, l) && Took(s, t, news)
    ensures Logs(c, t, OnGap(t, l))
  {
    RunsStay(s, t, l, OnGap(t, l));
    assert s.sent.requested == RequestsOf(l.runs) + [] == RequestsOf(l.runs);
    assert t.sent.requested == RequestsOf(l.runs) + news;
  }

  function CloseSegment(c: Config, s: State, l: Log): Log {
    var closed := s.gap.prevClosed != s.gap.start && s.gap.start != s.gap.next;
    Log(l.boot,
        l.segments + [l.current + if closed then [Close(s.gap.next)] else []],
        l.runs + [GapRun(s.gap.start, s.gap.end, l.asked, s.gap.next, closed)],
        [], l.asked)
  }

  // ------------------------------------------------------------------------------------------------------------
  // One reply
  // ------------------------------------------------------------------------------------------------------------

  /** Like `Collecting`, but everything outstanding may have been answered. */
  ghost predicate Progress(s: State, out: multiset<nat>) {
    && s.active.Some? && !s.skip
    && s.gap.start < s.gap.end == s.active.value.range.end
    && s.gap.start <= s.gap.next <= s.active.value.range.start <= s.gap.end
    && Sorted(s.heap) && AllFromSyncer(s.heap)
    && forall x: nat :: Owed(s, out, x) == (if s.gap.next <= x < s.active.value.range.start then 1 else 0)
  }

  /** Handing over the head of the heap, when it is `next`. */
  function FlushOne(c: Config, s: State): State
    requires s.heap != []
  {
    Archive(c, s.(heap := s.heap[1..], gap := s.gap.(next := s.gap.next + 1)), Data(s.heap[0], Some(s.gap.end)))
  }

  lemma HeadCount(h: seq<MilestoneData>, x: nat)
    requires h != []
    ensures multiset(Indexes(h))[x] == multiset(Indexes(h[1..]))[x] + (if x == h[0].index then 1 else 0)
  {
    assert Indexes(h) == [h[0].index] + Indexes(h[1..]);
  }

  lemma FlushOneProgresses(c: Config, s: State, out: multiset<nat>)
    requires Progress(s, out) && s.heap != [] && s.heap[0].index == s.gap.next
    ensures Progress(FlushOne(c, s), out) && s.gap.next < s.active.value.range.start
  {
    var t := FlushOne(c, s);
    HeadCount(s.heap, s.gap.next);
    assert Owed(s, out, s.gap.next) >= 1;
    forall x: nat
      ensures Owed(t, out, x) == (if t.gap.next <= x < t.active.value.range.start then 1 else 0)
    {
      HeadCount(s.heap, x);
      assert Owed(s, out, x) == Owed(t, out, x) + (if x == s.gap.next then 1 else 0);
    }
  }

  lemma FlushOneArchives(c: Config, s: State, l: Log)
    requires s.active.Some? && s.heap != [] && s.heap[0].index == s.gap.next && s.heap[0].createdBy.Syncer? && Archived(c, s, l)
    ensures Archived(c, FlushOne(c, s), l.(current := l.current + [Data(s.heap[0], Some(s.gap.end))]))
  {
  }

  lemma RunsStay(s: State, t: State, l: Log, m: Log)
    requires RunsOk(s, l) && t.sent.alerts == s.sent.alerts && m.runs == l.runs && m.segments == l.segments
    ensures RunsOk(t, m)
  {
    forall i | 0 <= i < |m.runs|
      ensures EventsOf(m.segments[i], m.runs[i]) && RunOk(t, m.runs[i])
    {
      assert RunOk(s, l.runs[i]) && EventsOf(l.segments[i], l.runs[i]);
    }
  }

  lemma FlushOneKeepsProgress(c: Config, s: State, out: multiset<nat>, l: Log) returns (m: Log)
    requires Progress(s, out) && Logs(c, s, l) && l.asked == s.active.value.range.start
    requires s.heap != [] && s.heap[0].index == s.gap.next
    ensures var t := FlushOne(c, s); Progress(t, out) && Logs(c, t, m) && m == l.(current := m.current)
  {
    m := l.(current := l.current + [Data(s.heap[0], Some(s.gap.end))]);
    FlushOneProgresses(c, s, out);
    FlushOneArchives(c, s, l);
    RunsStay(s, FlushOne(c, s), l, m);
  }

  /** Handing over everything in order, up to the first hole. */
  lemma {:induction false} FlushKeepsProgress(c: Config, s: State, out: multiset<nat>, l: Log) returns (m: Log)
    requires Progress(s, out) && Logs(c, s, l) && l.asked == s.active.value.range.start
    ensures var t := Flush(c, s);
            && Progress(t, out) && Logs(c, t, m) && m == l.(current := m.current)
            && (t.heap != [] ==> t.heap[0].index != t.gap.next)
            && t == s.(heap := t.heap, gap := s.gap.(next := t.gap.next), sent := s.sent.(archived := t.sent.archived))
    decreases |s.heap|
  {
    m := l;
    if s.heap != [] && s.heap[0].index == s.gap.next {
      m := FlushOneKeepsProgress(c, s, out, l);
      m := FlushKeepsProgress(c, FlushOne(c, s), out, m);
    }
  }

  /** Once everything outstanding is answered and flushed, the heap is empty and the requested part handed over. */
  lemma NothingLeft(s: State)
    requires Progress(s, multiset{})
    requires s.heap != [] ==> s.heap[0].index != s.gap.next
    ensures s.heap == [] && s.gap.next == s.active.value.range.start
  {
    var owed := Owed(s, multiset{}, s.gap.next);
    if s.heap != [] {
      HeadCount(s.heap, s.heap[0].index);
      HeadIsLowest(s.heap, s.gap.next);
      var low := Owed(s, multiset{}, s.heap[0].index);
      assert false;
    }
  }

  lemma HeadIsLowest(h: seq<MilestoneData>, x: nat)
    requires Sorted(h) && h != []
    ensures multiset(Indexes(h))[x] > 0 ==> h[0].index <= x
  {
    if multiset(Indexes(h))[x] > 0 {
      assert x in Indexes(h);
      var i :| 0 <= i < |h| && Indexes(h)[i] == x;
    }
  }

  /** Removing an answered index and pushing its data moves it from outstanding to the heap. */
  lemma ArrivalKeepsOwed(s: State, out: multiset<nat>, d: MilestoneData, x: nat)
    requires d.index in out && Sorted(s.heap) && s.pending > 0
    ensures var t := s.(pending := s.pending - 1, heap := Push(s.heap, d));
            Sorted(t.heap) && Owed(t, out - multiset{d.index}, x) == Owed(s, out, x)
  {
    PushKeepsOrder(s.heap, d);
    PushAddsIndex(s.heap, d);
  }

  lemma PushFromSyncer(h: seq<MilestoneData>, d: MilestoneData)
    requires AllFromSyncer(h) && d.createdBy.Syncer?
    ensures AllFromSyncer(Push(h, d))
  {
    var i, r := Slot(h, d.index), Push(h, d);
    assert forall k :: 0 <= k < |r| ==> r[k] == (if k < i then h[k] else if k == i then d else h[k - 1]);
  }

  /** Buffering an arrival and requesting one more index. */
  function Buffered(s: State, d: MilestoneData): State
    requires s.active.Some? && s.pending > 0
  {
    RequestFromActive(s.(pending := s.pending - 1, heap := Push(s.heap, d)), 1)
  }

  lemma BufferedKeepsProgress(c: Config, s: State, out: multiset<nat>, d: MilestoneData) returns (asked: seq<nat>)
    requires Collecting(c, s, out) && !s.skip && AllFromSyncer(s.heap)
    requires d.index in out && d.createdBy.Syncer?
    ensures var t, rest := Buffered(s, d), out - multiset{d.index} + multiset(asked);
            && Progress(t, rest) && t.pending == |rest| <= c.parallelism
            && Requests(s, t, asked)
            && (rest == multiset{} ==> asked == [] && Remaining(t.active.value) == 0)
  {
    var cur := s.active.value.range.start;
    var k := if Remaining(s.active.value) > 0 then 1 else 0;
    asked := Iota(cur, cur + k);
    var t, rest := Buffered(s, d), out - multiset{d.index} + multiset(asked);
    PushFromSyncer(s.heap, d);
    PushKeepsOrder(s.heap, d);
    forall x: nat
      ensures Owed(t, rest, x) == (if t.gap.next <= x < t.active.value.range.start then 1 else 0)
    {
      ArrivalKeepsOwed(s, out, d, x);
      IotaCount(cur, cur + k, x);
      assert Owed(s, out, x) == (if s.gap.next <= x < cur then 1 else 0);
    }
    assert |rest| == |out| - 1 + |asked|;
  }

  /** Requesting one more index goes on with the requests of the gap. */
  lemma BufferedRequests(s: State, d: MilestoneData, l: Log)
    requires s.active.Some? && s.pending > 0 && Requested(s, l)
    requires s.gap.start <= s.active.value.range.start <= s.gap.end == s.active.value.range.end
    ensures Requested(Buffered(s, d), OnGap(Buffered(s, d), l))
  {
    var from, mid, cur := s.gap.start, s.active.value.range.start, Buffered(s, d).active.value.range.start;
    IotaSplit(from, mid, cur);
    assert RequestsOf(l.runs) + Span(from, mid) + Iota(mid, cur) == RequestsOf(l.runs) + Span(from, cur);
  }

  lemma BufferedLogs(c: Config, s: State, d: MilestoneData, l: Log)
    requires s.active.Some? && s.pending > 0 && Logs(c, s, l)
    requires s.gap.start <= s.active.value.range.start <= s.gap.end == s.active.value.range.end
    ensures var t := Buffered(s, d); Logs(c, t, OnGap(t, l))
  {
    var t := Buffered(s, d);
    BufferedRequests(s, d, l);
    RunsStay(s, t, l, OnGap(t, l));
  }

  /** Arrivals leave a state like this behind before the Syncer checks whether the gap is finished. */
  ghost predicate Flushed(c: Config, s: State, out: multiset<nat>) {
    && c.parallelism > 0 && s.highest > 0 && Tidy(s.syncData)
    && Progress(s, out)
    && s.pending == |out| <= c.parallelism
    && (s.heap != [] ==> s.heap[0].index != s.gap.next)
    && (s.pending == 0 ==> Remaining(s.active.value) == 0)
  }

  /** In-order arrival: request one more and hand over what is in order. */
  lemma ArrivalFlushes(c: Config, s: State, out: multiset<nat>, d: MilestoneData, l: Log) returns (asked: seq<nat>, m: Log)
    requires Main(c, s, out) && Collecting(c, s, out) && !s.skip && Logs(c, s, l)
    requires d.index in out && d.createdBy.Syncer?
    ensures var t := Flush(c, Buffered(s, d));
            && Flushed(c, t, out - multiset{d.index} + multiset(asked))
            && (t.pending == 0 ==> asked == [])
            && Requests(s, t, asked)
            && Logs(c, t, m) && m.segments == l.segments && m.runs == l.runs && m.boot == l.boot
  {
    asked := BufferedKeepsProgress(c, s, out, d);
    BufferedLogs(c, s, d, l);
    m := FlushKeepsProgress(c, Buffered(s, d), out - multiset{d.index} + multiset(asked), OnGap(Buffered(s, d), l));
  }

  lemma StillCollecting(c: Config, s: State, out: multiset<nat>)
    requires Flushed(c, s, out) && s.pending > 0
    ensures Main(c, s, out)
  {
  }

  lemma FinishInOrder(c: Config, s: State, out: multiset<nat>, l: Log) returns (news: seq<nat>, m: Log)
    requires Flushed(c, s, out) && s.pending == 0 && Logs(c, s, l)
    ensures out == multiset{}
    ensures var t := TriggerProcessMore(c, s);
            && Main(c, t, multiset(news))
            && Requests(s, t, news)
            && Logs(c, t, m) && Extends(l, m)
  {
    assert out == multiset{};
    NothingLeft(s);
    news, m := FinishGap(c, s, l);
  }

  /** After an in-order arrival the gap goes on, or it is finished and the next one starts. */
  lemma ArrivalInOrder(c: Config, s: State, out: multiset<nat>, d: MilestoneData, l: Log) returns (news: seq<nat>, m: Log)
    requires Main(c, s, out) && Collecting(c, s, out) && !s.skip && Logs(c, s, l)
    requires d.index in out && d.createdBy.Syncer?
    ensures var t := HandleMilestoneData(c, s, d);
            && Main(c, t, out - multiset{d.index} + multiset(news))
            && Requests(s, t, news)
            && Logs(c, t, m) && Extends(l, m)
  {
    news, m := ArrivalFlushes(c, s, out, d, l);
    var t := Flush(c, Buffered(s, d));
    if t.pending == 0 {
      news, m := FinishInOrder(c, t, out - multiset{d.index} + multiset(news), m);
      assert out - multiset{d.index} == multiset{};
      assert multiset{} + multiset(news) == multiset(news);
      assert s.sent.requested + [] == s.sent.requested;
    } else {
      StillCollecting(c, t, out - multiset{d.index} + multiset(news));
    }
  }

  /** The gap is being skipped: a reply leaves a state like this behind. */
  ghost predicate Dropping(c: Config, s: State, out: multiset<nat>) {
    && c.parallelism > 0 && s.highest > 0 && Tidy(s.syncData) && AllFromSyncer(s.heap)
    && s.active.Some? && Skipping(s, out)
    && s.gap.start < s.gap.end == s.active.value.range.end
    && s.gap.start <= s.gap.next <= s.active.value.range.start <= s.gap.end
    && s.pending == |out| <= c.parallelism
  }

  lemma SkipGoesOn(c: Config, s: State, out: multiset<nat>, l: Log)
    requires Dropping(c, s, out) && Logs(c, s, l) && s.pending > 0
    ensures var t := TriggerProcessMore(c, HandleSkip(s)); Main(c, t, out) && Requests(s, t, []) && Logs(c, t, l)
  {
    assert s.sent.requested + [] == s.sent.requested;
    RunsStay(s, HandleSkip(s), l, l);
  }

  lemma SkippedIsFinished(c: Config, s: State, out: multiset<nat>, l: Log)
    requires Dropping(c, s, out) && Logs(c, s, l) && s.pending == 0
    ensures Finished(HandleSkip(s)) && Logs(c, HandleSkip(s), l)
  {
    RunsStay(s, HandleSkip(s), l, l);
  }

  /** A reply while the gap is being skipped, or the one that makes it skip: it is dropped, and with the last one the gap. */
  lemma ReplySkips(c: Config, s: State, out: multiset<nat>, l: Log) returns (news: seq<nat>, m: Log)
    requires Dropping(c, s, out) && Logs(c, s, l)
    ensures var t := TriggerProcessMore(c, HandleSkip(s));
            && Main(c, t, out + multiset(news))
            && Requests(s, t, news)
            && Logs(c, t, m) && Extends(l, m)
  {
    if s.pending == 0 {
      assert out == multiset{};
      SkippedIsFinished(c, s, out, l);
      news, m := FinishGap(c, HandleSkip(s), l);
      assert out + multiset(news) == multiset(news);
    } else {
      news, m := [], l;
      assert out + multiset(news) == out;
      SkipGoesOn(c, s, out, l);
    }
  }

  lemma DroppedData(c: Config, s: State, out: multiset<nat>, d: MilestoneData, l: Log)
    requires Main(c, s, out) && Logs(c, s, l) && s.skip && d.index in out && d.createdBy.Syncer?
    ensures var t := s.(pending := s.pending - 1, heap := Push(s.heap, d)); Dropping(c, t, out - multiset{d.index}) && Logs(c, t, l)
  {
    var t := s.(pending := s.pending - 1, heap := Push(s.heap, d));
    PushFromSyncer(s.heap, d);
    PushInRange(s.heap, d, s.gap.start, s.active.value.range.start);
    RunsStay(s, t, l, l);
  }

  lemma DroppedReply(c: Config, s: State, out: multiset<nat>, d: MilestoneData, l: Log) returns (news: seq<nat>, m: Log)
    requires Main(c, s, out) && Logs(c, s, l) && s.skip
    requires d.index in out && d.createdBy.Syncer?
    ensures var t := HandleMilestoneData(c, s, d);
            && Main(c, t, out - multiset{d.index} + multiset(news))
            && Requests(s, t, news)
            && Logs(c, t, m) && Extends(l, m)
  {
    DroppedData(c, s, out, d, l);
    news, m := ReplySkips(c, s.(pending := s.pending - 1, heap := Push(s.heap, d)), out - multiset{d.index}, l);
  }

  lemma PushInRange(h: seq<MilestoneData>, d: MilestoneData, from: nat, to: nat)
    requires from <= d.index < to && forall i :: 0 <= i < |h| ==> from <= h[i].index < to
    ensures forall i :: 0 <= i < |Push(h, d)| ==> from <= Push(h, d)[i].index < to
  {
    var i, r := Slot(h, d.index), Push(h, d);
    assert forall k :: 0 <= k < |r| ==> r[k] == (if k < i then h[k] else if k == i then d else h[k - 1]);
  }

  lemma UnreachableReply(c: Config, s: State, out: multiset<nat>, index: nat, l: Log) returns (news: seq<nat>, m: Log)
    requires Main(c, s, out) && Logs(c, s, l) && index in out
    ensures AcceptsReply(s)
    ensures var t := HandleUnreachable(c, s, index);
            && Main(c, t, out - multiset{index} + multiset(news))
            && Requests(s, t, news)
            && Logs(c, t, m) && Extends(l, m)
  {
    var t := s.(pending := s.pending - 1, sent := s.sent.(alerts := s.sent.alerts + [index]));
    AlertGrows(c, s, index, out, l);
    news, m := ReplySkips(c, t, out - multiset{index}, l);
  }

  /** Main step: whatever outstanding reply arrives, the Syncer stays in a state in which every requested index of the
      gap is outstanding, buffered or handed over, and what the Archiver received stays a list of gaps in order: the
      gaps announced, to which finished ones are only added. */
  lemma ReplyKeepsMain(c: Config, s: State, out: multiset<nat>, r: Reply, l: Log) returns (news: seq<nat>, m: Log)
    requires Main(c, s, out) && Logs(c, s, l)
    requires r.Index() in out
    requires r.Collected? ==> r.data.createdBy.Syncer?
    ensures AcceptsReply(s)
    ensures var t := HandleReply(c, s, r);
            && Main(c, t, out - multiset{r.Index()} + multiset(news))
            && Requests(s, t, news)
            && Logs(c, t, m) && Extends(l, m)
  {
    if r.Unreachable? {
      news, m := UnreachableReply(c, s, out, r.index, l);
    } else if s.skip {
      news, m := DroppedReply(c, s, out, r.data, l);
    } else {
      news, m := ArrivalInOrder(c, s, out, r.data, l);
    }
  }

  lemma AlertGrows(c: Config, s: State, index: nat, out: multiset<nat>, l: Log)
    requires Collecting(c, s, out) && Logs(c, s, l)
    requires index in out
    ensures var t := s.(pending := s.pending - 1, sent := s.sent.(alerts := s.sent.alerts + [index]));
            Skipping(t, out - multiset{index}) && Logs(c, t, l)
  {
    var t := s.(pending := s.pending - 1, sent := s.sent.(alerts := s.sent.alerts + [index]));
    forall x | x in out
      ensures s.gap.start <= x < s.active.value.range.start
    {
      assert !s.skip ==> Owed(s, out, x) >= 1;
    }
    HeapInRange(c, s, out);
    assert index in t.sent.alerts;
    forall i | 0 <= i < |l.runs|
      ensures RunOk(t, l.runs[i])
    {
      if l.runs[i].next < l.runs[i].end {
        var a :| a in s.sent.alerts && l.runs[i].start <= a < l.runs[i].end;
        assert a in t.sent.alerts;
      }
    }
  }

  lemma HeapInRange(c: Config, s: State, out: multiset<nat>)
    requires Collecting(c, s, out)
    ensures forall i :: 0 <= i < |s.heap| ==> s.gap.start <= s.heap[i].index < s.active.value.range.start
  {
    if !s.skip {
      forall i | 0 <= i < |s.heap|
        ensures s.gap.start <= s.heap[i].index < s.active.value.range.start
      {
        assert Indexes(s.heap)[i] == s.heap[i].index && s.heap[i].index in multiset(Indexes(s.heap));
        assert Owed(s, out, s.heap[i].index) >= 1;
      }
    }
  }
}
