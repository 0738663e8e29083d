/** What becomes of every answer: nothing that was collected is lost on the way to the Archiver. */
module PipelineAccounts {
  import opened Types
  import opened Ranges
  import Sync = SyncTable
  import opened SyncerSpec
  import opened SyncerProofs
  import opened SyncerBootstrap
  import opened SyncerHandover
  import SyncerRequests
  import opened PipelineSpec
  import opened Pipeline
  import Cones = SolidifierCones

  ghost function One(b: bool): nat {
    if b then 1 else 0
  }

  /** No gap with `x` in it has an unreachable milestone. */
  ghost predicate Reachable(s: State, x: nat) {
    forall i :: 0 <= i < |s.sent.taken| && s.sent.taken[i].Has(x) ==> !AlertIn(s, s.sent.taken[i].start, s.sent.taken[i].end)
  }

  // ------------------------------------------------------------------------------------------------------------
  // Counting the Archiver's events
  // ------------------------------------------------------------------------------------------------------------

  lemma {:induction false} CountConcat(a: seq<ArchiverEvent>, b: seq<ArchiverEvent>, x: nat)
    ensures Count(a + b, x) == Count(a, x) + Count(b, x)
    decreases |b|
  {
    if b == [] {
      assert a + b == a;
    } else {
      var n := |b| - 1;
      CountConcat(a, b[..n], x);
      assert (a + b)[..|a| + n] == a + b[..n];
    }
  }

  lemma {:induction false} DataCount(events: seq<ArchiverEvent>, from: nat, to: nat, end: nat, x: nat)
    requires DataOf(events, from, to, end)
    ensures Count(events, x) == One(from <= x < to)
    decreases |events|
  {
    if events != [] {
      DataCount(events[..|events| - 1], from, to - 1, end, x);
    }
  }

  lemma EventsCount(events: seq<ArchiverEvent>, run: GapRun, x: nat)
    requires EventsOf(events, run)
    ensures Count(events, x) == One(run.start <= x < run.next)
  {
    if run.closed {
      DataCount(events[..|events| - 1], run.start, run.next, run.end, x);
    } else {
      DataCount(events, run.start, run.next, run.end, x);
    }
  }

  lemma SpanCount(from: nat, to: nat, x: nat)
    ensures multiset(Span(from, to))[x] == One(from <= x < to)
  {
    if from <= to { IotaCount(from, to, x); }
  }

  lemma SegmentCount(segments: seq<seq<ArchiverEvent>>, segment: seq<ArchiverEvent>, run: GapRun, x: nat)
    requires EventsOf(segment, run)
    ensures Count(Sync.Flatten(segments + [segment]), x) == Count(Sync.Flatten(segments), x) + One(run.start <= x < run.next)
  {
    FlattenSnoc(segments, segment);
    CountConcat(Sync.Flatten(segments), segment, x);
    EventsCount(segment, run, x);
  }

  lemma AskedCount(runs: seq<GapRun>, run: GapRun, x: nat)
    ensures multiset(RequestsOf(runs + [run]))[x] == multiset(RequestsOf(runs))[x] + One(run.start <= x < run.asked)
  {
    RequestsSnoc(runs, run);
    SpanCount(run.start, run.asked, x);
  }

  /** In a gap without an unreachable milestone all that was requested was handed over. */
  lemma RunIsComplete(s: State, l: Log, i: nat, x: nat)
    requires RunsOk(s, l) && i < |l.runs| && Announced(s, l) && Reachable(s, x)
    ensures l.runs[i].start <= x < l.runs[i].next <==> l.runs[i].start <= x < l.runs[i].asked
  {
    assert s.sent.taken[i] == Range(l.runs[i].start, l.runs[i].end) && RunOk(s, l.runs[i]);
  }

  /** The first `n` finished gaps. */
  function FirstRuns(l: Log, n: nat): (seq<seq<ArchiverEvent>>, seq<GapRun>)
    requires n <= |l.runs| == |l.segments|
  {
    (l.segments[..n], l.runs[..n])
  }

  lemma OneMoreRun(l: Log, n: nat, x: nat)
    requires 0 < n <= |l.runs| == |l.segments| && EventsOf(l.segments[n - 1], l.runs[n - 1])
    ensures Count(Sync.Flatten(FirstRuns(l, n).0), x)
         == Count(Sync.Flatten(FirstRuns(l, n - 1).0), x) + One(l.runs[n - 1].start <= x < l.runs[n - 1].next)
    ensures multiset(RequestsOf(FirstRuns(l, n).1))[x]
         == multiset(RequestsOf(FirstRuns(l, n - 1).1))[x] + One(l.runs[n - 1].start <= x < l.runs[n - 1].asked)
  {
    assert l.segments[..n] == l.segments[..n - 1] + [l.segments[n - 1]] && l.runs[..n] == l.runs[..n - 1] + [l.runs[n - 1]];
    SegmentCount(l.segments[..n - 1], l.segments[n - 1], l.runs[n - 1], x);
    AskedCount(l.runs[..n - 1], l.runs[n - 1], x);
  }

  /** In the finished gaps, as often as `x` was requested it was handed over. */
  lemma {:induction false} RunsCount(s: State, l: Log, n: nat, x: nat)
    requires RunsOk(s, l) && n <= |l.runs| && Announced(s, l) && Reachable(s, x)
    ensures Count(Sync.Flatten(FirstRuns(l, n).0), x) == multiset(RequestsOf(FirstRuns(l, n).1))[x]
    decreases n
  {
    if n > 0 {
      RunsCount(s, l, n - 1, x);
      RunIsComplete(s, l, n - 1, x);
      OneMoreRun(l, n, x);
    }
  }

  // ------------------------------------------------------------------------------------------------------------
  // The gap in progress
  // ------------------------------------------------------------------------------------------------------------

  /** In the gap in progress what was requested is handed over, buffered or outstanding. */
  lemma GapCount(c: Config, s: State, out: multiset<nat>, l: Log, x: nat)
    requires Collecting(c, s, out) && Announced(s, l) && Requested(s, l) && Archived(c, s, l) && Reachable(s, x)
    ensures multiset(Span(s.gap.start, l.asked))[x] == Count(l.current, x) + out[x] + multiset(Indexes(s.heap))[x]
  {
    SpanCount(s.gap.start, l.asked, x);
    DataCount(l.current, s.gap.start, s.gap.next, s.gap.end, x);
    assert s.sent.taken[|l.runs|] == Range(s.gap.start, s.gap.end);
    if s.skip {
      HeapCount(s.heap, s.gap.start, s.active.value.range.start, x);
    } else {
      assert Owed(s, out, x) == One(s.gap.next <= x < s.active.value.range.start);
    }
  }

  lemma HeapCount(h: seq<MilestoneData>, from: nat, to: nat, x: nat)
    requires forall i :: 0 <= i < |h| ==> from <= h[i].index < to
    ensures !(from <= x < to) ==> multiset(Indexes(h))[x] == 0
  {
    if multiset(Indexes(h))[x] > 0 {
      assert x in Indexes(h);
    }
  }

  /** As often as `x` was requested, it is outstanding, buffered, or has been handed over since the bootstrap. */
  lemma RequestsAreAccounted(c: Config, s: State, out: multiset<nat>, l: Log, x: nat)
    requires Main(c, s, out) && Logs(c, s, l) && c.archiving && Reachable(s, x)
    ensures multiset(s.sent.requested)[x] + Count(l.boot, x)
         == Count(s.sent.archived, x) + out[x] + multiset(Indexes(s.heap))[x]
  {
    var n := |l.runs|;
    RunsCount(s, l, n, x);
    assert l.segments[..n] == l.segments && l.runs[..n] == l.runs;
    CountConcat(l.boot, Sync.Flatten(l.segments), x);
    CountConcat(l.boot + Sync.Flatten(l.segments), l.current, x);
    if s.active.Some? {
      GapCount(c, s, out, l, x);
      assert multiset(s.sent.requested)[x] == multiset(RequestsOf(l.runs))[x] + multiset(Span(s.gap.start, l.asked))[x];
    } else {
      assert multiset(Indexes(s.heap)) == multiset{};
      assert RequestsOf(l.runs) + [] == RequestsOf(l.runs);
    }
  }

  // ------------------------------------------------------------------------------------------------------------
  // Every run
  // ------------------------------------------------------------------------------------------------------------

  /** The bootstrap hands over each first milestone once. */
  lemma BootCount(firsts: seq<MilestoneData>, boot: seq<ArchiverEvent>, x: nat)
    requires Strict(firsts) && BootEvents(boot, firsts)
    ensures Count(boot, x) == multiset(Indexes(firsts))[x]
  {
    RankedOnce(boot, x);
    CountMember(boot, x);
    StrictCount(firsts, x);
    if Has(firsts, x) {
      var i :| 0 <= i < |firsts| && firsts[i].index == x;
      assert Due(firsts, Data(firsts[i], None));
      assert Data(firsts[i], None) in boot;
    }
    if Count(boot, x) > 0 {
      var i :| 0 <= i < |boot| && Carries(boot[i], x);
      assert boot[i] in boot;
      assert Due(firsts, boot[i]);
    }
  }

  lemma {:induction false} StrictCount(h: seq<MilestoneData>, x: nat)
    requires Strict(h)
    ensures multiset(Indexes(h))[x] == One(Has(h, x))
    decreases |h|
  {
    if h != [] {
      StrictCount(h[1..], x);
      HeadCount(h, x);
      HasCons(h, x);
      assert Has(h[1..], x) ==> h[0].index < x;
    }
  }

  /** Main result: after any run, every answer for an index outside the gaps with an unreachable milestone was handed over
      to the Archiver or is buffered in front of it, exactly as often as it came; none is lost and none is doubled. */
  lemma NothingIsLost(tangle: Cones.Tangle, c: Config, snapshot: Sync.Snapshot, firstAsk: Option<Ask>, count: nat, gapStart: nat,
                      actions: seq<PipelineSpec.Action>) returns (sys: System)
    requires c.parallelism > 0 && c.archiving && Sync.Tidy(snapshot) && count > 0 && gapStart >= 1
    ensures RunOf(tangle, c, Begin(c, snapshot, firstAsk, count, gapStart), actions) == Some(sys)
    ensures var s := sys.syncer;
            forall x: nat :: s.highest != 0 && Reachable(s, x) ==>
              && sys.answered[x] == Count(s.sent.archived, x) + multiset(Indexes(s.heap))[x]
              && multiset(s.sent.requested)[x] + Firsts(sys.sols)[x] == sys.answered[x] + Outstanding(sys)[x]
  {
    var p := Past(Log([], [], [], [], 0), []);
    BeginHasInv(tangle, c, snapshot, firstAsk, count, gapStart, p);
    p := RunKeepsInv(tangle, c, Begin(c, snapshot, firstAsk, count, gapStart), actions, p);
    sys := RunOf(tangle, c, Begin(c, snapshot, firstAsk, count, gapStart), actions).value;
    forall x: nat | sys.syncer.highest != 0 && Reachable(sys.syncer, x)
      ensures sys.answered[x] == Count(sys.syncer.sent.archived, x) + multiset(Indexes(sys.syncer.heap))[x]
      ensures multiset(sys.syncer.sent.requested)[x] + Firsts(sys.sols)[x] == sys.answered[x] + Outstanding(sys)[x]
    {
      AnswersAreAccounted(c, sys.syncer, BooksOf(sys), p, x);
    }
  }

  lemma AnswersAreAccounted(c: Config, s: State, b: Books, p: Past, x: nat)
    requires Balanced(c, s, b, p) && s.highest != 0 && c.archiving && Reachable(s, x)
    ensures b.answered[x] == Count(s.sent.archived, x) + multiset(Indexes(s.heap))[x]
    ensures multiset(s.sent.requested)[x] + b.firsts[x] == b.answered[x] + b.out[x]
  {
    RequestsAreAccounted(c, s, b.out, p.log, x);
    BootCount(p.firsts, p.log.boot, x);
    assert (multiset(s.sent.requested) + b.firsts)[x] == (b.answered + b.out)[x];
  }
}
