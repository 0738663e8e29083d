/** Which milestones the Syncer requests, how often and in which order. */
module SyncerRequests {
  import opened Types
  import opened Ranges
  import opened SyncTable
  import opened SyncerSpec
  import opened SyncerProofs

  // ------------------------------------------------------------------------------------------------------------
  // At most once within a snapshot of the sync table
  // ------------------------------------------------------------------------------------------------------------

  ghost function One(b: bool): nat {
    if b then 1 else 0
  }

  /** A moment of the past: how many requests had been sent and how many gaps announced by then. */
  datatype Mark = Mark(asked: nat, took: nat)

  ghost function Now(s: State): Mark {
    Mark(|s.sent.requested|, |s.sent.taken|)
  }

  /** How often `x` has been requested since `k`, plus whether it still may be. */
  ghost function Spent(s: State, k: Mark, x: nat): nat
    requires k.asked <= |s.sent.requested|
  {
    multiset(s.sent.requested[k.asked..])[x] + One(s.active.Some? && s.active.value.range.Has(x)) + One(Open(s.syncData, x))
  }

  /** How many of the ranges have `x`. */
  ghost function In(rs: seq<Range>, x: nat): nat {
    if rs == [] then 0 else In(rs[..|rs| - 1], x) + One(rs[|rs| - 1].Has(x))
  }

  lemma InSnoc(rs: seq<Range>, r: Range, x: nat)
    ensures In(rs + [r], x) == In(rs, x) + One(r.Has(x))
  {
    assert (rs + [r])[..|rs|] == rs;
  }

  /** The gaps announced since `took` are disjoint, and all in them was open in `read` and is not any more. */
  ghost predicate TakenOnce(s: State, read: Snapshot, took: nat) {
    took <= |s.sent.taken| && forall x: nat :: In(s.sent.taken[took..], x) + One(Open(s.syncData, x)) <= One(Open(read, x))
  }

  /** Since the snapshot `read` was taken, at `k`, every index was requested at most once and only if it was open then; and
      it will not be requested again. The same holds for the gaps announced. */
  ghost predicate AtMostOnce(s: State, read: Snapshot, k: Mark) {
    && Tidy(s.syncData) && s.highest <= LAST_GAP_END
    && k.asked <= |s.sent.requested|
    && (forall x: nat :: Spent(s, k, x) <= One(Open(read, x)))
    && TakenOnce(s, read, k.took)
  }

  // ------------------------------------------------------------------------------------------------------------
  // In ascending order within a gap
  // ------------------------------------------------------------------------------------------------------------

  /** The last requests are exactly the indexes of the gap up to the active range, in order. */
  ghost predicate InGapOrder(s: State) {
    s.active.Some? ==>
      var from, cur := s.gap.start, s.active.value.range.start;
      && from <= cur && cur - from <= |s.sent.requested|
      && s.sent.requested[|s.sent.requested| - (cur - from)..] == Iota(from, cur)
  }

  /** The active range is used up and nothing is outstanding: the gap is about to be finished. */
  predicate Exhaust(s: State) {
    s.active.Some? && Remaining(s.active.value) == 0 && s.pending == 0
  }

  ghost predicate Orderly(s: State, read: Snapshot, k: Mark) {
    AtMostOnce(s, read, k) && InGapOrder(s)
  }

  lemma RequestKeepsOrderly(s: State, read: Snapshot, k: Mark, n: nat)
    requires s.active.Some? && Orderly(s, read, k)
    ensures Orderly(RequestFromActive(s, n), read, k)
  {
    RequestKeepsOnce(s, read, k, n);
    RequestKeepsOrder(s, n);
  }

  lemma RequestKeepsOnce(s: State, read: Snapshot, k: Mark, n: nat)
    requires s.active.Some? && AtMostOnce(s, read, k)
    ensures AtMostOnce(RequestFromActive(s, n), read, k)
  {
    var t, r := RequestFromActive(s, n), s.active.value.range;
    var cur := t.active.value.range.start;
    assert t.sent.requested[k.asked..] == s.sent.requested[k.asked..] + Iota(r.start, cur);
    forall x: nat
      ensures Spent(t, k, x) == Spent(s, k, x)
    {
      IotaCount(r.start, cur, x);
    }
  }

  lemma RequestKeepsOrder(s: State, n: nat)
    requires s.active.Some? && InGapOrder(s)
    ensures InGapOrder(RequestFromActive(s, n))
  {
    var t, from := RequestFromActive(s, n), s.gap.start;
    var mid, cur := s.active.value.range.start, t.active.value.range.start;
    IotaSplit(from, mid, cur);
    var at := |s.sent.requested| - (mid - from);
    assert t.sent.requested[at..] == s.sent.requested[at..] + Iota(mid, cur);
  }

  /** Taking a run or a gap moves its indexes from open to active; those from the highest milestone on are dropped. */
  lemma TakeKeepsOnce(s: State, read: Snapshot, k: Mark, complete: bool, gap: Range)
    requires s.active.None? && AtMostOnce(s, read, k)
    requires var r := (if complete then TakeUncomplete(s.syncData) else TakeGap(s.syncData)).0;
             r.Some? && gap.start == r.value.start && gap.end <= r.value.end
    ensures var rest := (if complete then TakeUncomplete(s.syncData) else TakeGap(s.syncData)).1;
            && AtMostOnce(s.(syncData := rest), read, k)
            && Orderly(Start(s.(syncData := rest), gap, complete), read, k)
  {
    var (r, rest) := if complete then TakeUncomplete(s.syncData) else TakeGap(s.syncData);
    TakeIsTidy(s.syncData, complete);
    var t := s.(syncData := rest);
    var u := Start(t, gap, complete);
    forall x: nat
      ensures Spent(t, k, x) <= One(Open(read, x))
      ensures Spent(u, k, x) <= One(Open(read, x))
    {
      TakeMoves(s.syncData, complete, x);
      assert Spent(s, k, x) <= One(Open(read, x));
    }
    TakeKeepsTaken(s, read, k.took, complete, gap);
    assert u.sent.requested[|u.sent.requested|..] == Iota(gap.start, gap.start);
  }

  lemma TakeKeepsTaken(s: State, read: Snapshot, took: nat, complete: bool, gap: Range)
    requires s.active.None? && Tidy(s.syncData) && TakenOnce(s, read, took)
    requires var r := (if complete then TakeUncomplete(s.syncData) else TakeGap(s.syncData)).0;
             r.Some? && gap.start == r.value.start && gap.end <= r.value.end
    ensures var rest := (if complete then TakeUncomplete(s.syncData) else TakeGap(s.syncData)).1;
            && TakenOnce(s.(syncData := rest), read, took)
            && TakenOnce(Start(s.(syncData := rest), gap, complete), read, took)
  {
    var (r, rest) := if complete then TakeUncomplete(s.syncData) else TakeGap(s.syncData);
    assert (s.sent.taken + [gap])[took..] == s.sent.taken[took..] + [gap];
    forall x: nat
      ensures In(s.sent.taken[took..], x) + One(Open(rest, x)) <= One(Open(read, x))
      ensures In((s.sent.taken + [gap])[took..], x) + One(Open(rest, x)) <= One(Open(read, x))
    {
      TakeMoves(s.syncData, complete, x);
      InSnoc(s.sent.taken[took..], gap, x);
      assert In(s.sent.taken[took..], x) + One(Open(s.syncData, x)) <= One(Open(read, x));
    }
  }

  lemma TakeMoves(s: Snapshot, complete: bool, x: nat)
    requires Tidy(s)
    ensures var (r, rest) := if complete then TakeUncomplete(s) else TakeGap(s);
            r.Some? ==> (Open(s, x) <==> r.value.Has(x) || Open(rest, x)) && !(r.value.Has(x) && Open(rest, x))
  {
    if complete {
      if TakeUncomplete(s).0.Some? { TakeUncompleteTakesRun(s, x); }
    } else if s.gaps != [] {
      LastRange(s.gaps, x);
    }
  }

  // ------------------------------------------------------------------------------------------------------------
  // Every handler keeps both
  // ------------------------------------------------------------------------------------------------------------

  lemma {:induction false} TriggerKeepsOrderly(c: Config, s: State, read: Snapshot, k: Mark)
    requires c.parallelism > 0
    requires AtMostOnce(s, read, k) && (InGapOrder(s) || Exhaust(s))
    ensures Orderly(TriggerProcessMore(c, s), read, k)
    decreases s.syncData.Size(), One(s.active.Some?), 1
  {
    if s.pending == 0 {
      assert TriggerProcessMore(c, s) == ProcessMore(c, s);
      if s.active.None? {
        assert Spent(s, k, 0) <= One(Open(read, 0));
        SameSpent(s, Schedule(s.(eof := true)), read, k);
      } else if Exhaust(s) {
        RequestNone(s);
        RequestAll(s, c.parallelism);
        FinishKeepsOrderly(c, s, read, k);
      } else {
        ProcessKeepsOrderly(c, s, read, k);
      }
    }
  }

  lemma SameSpent(s: State, t: State, read: Snapshot, k: Mark)
    requires AtMostOnce(s, read, k)
    requires t.syncData == s.syncData && t.sent.requested == s.sent.requested && t.highest == s.highest
    requires t.sent.taken == s.sent.taken
    requires t.active.Some? ==> t.active == s.active || Remaining(t.active.value) == 0
    ensures AtMostOnce(t, read, k)
  {
    forall x: nat
      ensures Spent(t, k, x) <= One(Open(read, x))
    {
      assert Spent(t, k, x) <= Spent(s, k, x);
    }
  }

  lemma {:induction false} ProcessKeepsOrderly(c: Config, s: State, read: Snapshot, k: Mark)
    requires c.parallelism > 0 && s.active.Some? && Orderly(s, read, k)
    ensures Orderly(ProcessMore(c, s), read, k)
    decreases s.syncData.Size(), 1, 0
  {
    var t := RequestFromActive(s, c.parallelism);
    RequestKeepsOrderly(s, read, k, c.parallelism);
    if Remaining(s.active.value) < c.parallelism && t.pending == 0 {
      var u := CloseLogFile(c, t).(active := None);
      SameSpent(t, u, read, k);
      TakeKeepsOrderly(c, u, read, k, t.active.value.Complete?);
    }
  }

  lemma {:induction false} FinishKeepsOrderly(c: Config, s: State, read: Snapshot, k: Mark)
    requires c.parallelism > 0 && s.active.Some? && Exhaust(s) && AtMostOnce(s, read, k)
    requires RequestFromActive(s, c.parallelism) == s
    ensures Orderly(ProcessMore(c, s), read, k)
    decreases s.syncData.Size(), 1, 0
  {
    var u := CloseLogFile(c, s).(active := None);
    SameSpent(s, u, read, k);
    TakeKeepsOrderly(c, u, read, k, s.active.value.Complete?);
  }

  lemma {:induction false} TakeKeepsOrderly(c: Config, s: State, read: Snapshot, k: Mark, complete: bool)
    requires c.parallelism > 0 && s.active.None? && AtMostOnce(s, read, k)
    ensures Orderly(TakeNext(c, s, complete), read, k)
    decreases s.syncData.Size(), 0, 2
  {
    var (r, rest) := if complete then TakeUncomplete(s.syncData) else TakeGap(s.syncData);
    var t := s.(syncData := rest);
    if r.None? {
      TriggerKeepsOrderly(c, t, read, k);
    } else {
      var gap := if r.value.end != LAST_GAP_END then r.value else Range(r.value.start, s.highest);
      if r.value.end != LAST_GAP_END || s.highest > r.value.start {
        TakeKeepsOnce(s, read, k, complete, gap);
        TriggerKeepsOrderly(c, Start(t, gap, complete), read, k);
      } else {
        TakeKeepsOnce(s, read, k, complete, r.value);
        TriggerKeepsOrderly(c, t, read, k);
      }
    }
  }

  lemma {:induction false} FlushKeepsOrderly(c: Config, s: State, read: Snapshot, k: Mark)
    requires Orderly(s, read, k)
    ensures Orderly(Flush(c, s), read, k)
    decreases |s.heap|
  {
    if s.heap != [] && s.heap[0].index == s.gap.next {
      SameSpent(s, FlushOne(c, s), read, k);
      FlushKeepsOrderly(c, FlushOne(c, s), read, k);
    }
  }

  lemma SkipKeepsOrderly(c: Config, s: State, read: Snapshot, k: Mark)
    requires c.parallelism > 0 && s.active.Some? && Orderly(s, read, k)
    ensures Orderly(TriggerProcessMore(c, HandleSkip(s)), read, k)
  {
    SameSpent(s, HandleSkip(s), read, k);
    TriggerKeepsOrderly(c, HandleSkip(s), read, k);
  }

  /** Main result: whatever reply arrives, no milestone is requested twice within a snapshot, only open ones are, and
      those of a gap in ascending order. */
  lemma ReplyKeepsOrderly(c: Config, s: State, out: multiset<nat>, r: Reply, read: Snapshot, k: Mark)
    requires Main(c, s, out) && r.Index() in out && Orderly(s, read, k)
    ensures Orderly(HandleReply(c, s, r), read, k)
  {
    var t := s.(pending := s.pending - 1);
    if r.Collected? {
      var u := t.(heap := Push(s.heap, r.data));
      SameSpent(s, u, read, k);
      if s.skip {
        SkipKeepsOrderly(c, u, read, k);
      } else {
        RequestKeepsOrderly(u, read, k, 1);
        FlushKeepsOrderly(c, RequestFromActive(u, 1), read, k);
        TriggerKeepsOrderly(c, Flush(c, RequestFromActive(u, 1)), read, k);
      }
    } else {
      var u := t.(sent := s.sent.(alerts := s.sent.alerts + [r.index]));
      SameSpent(s, u, read, k);
      SkipKeepsOrderly(c, u, read, k);
    }
  }

  /** A snapshot just taken: nothing was requested since. */
  lemma FreshSnapshot(s: State)
    requires s.active.None? && Tidy(s.syncData) && s.highest <= LAST_GAP_END
    ensures Orderly(s, s.syncData, Now(s))
  {
    assert s.sent.requested[|s.sent.requested|..] == [] && s.sent.taken[|s.sent.taken|..] == [];
  }

  lemma AskedKeepsOrderly(c: Config, s: State, read: Snapshot, k: Mark)
    requires c.parallelism > 0 && s.active.None? && Orderly(s, read, k)
    ensures Orderly(CompleteOrFillGaps(c, s), read, k)
  {
    if s.firstAsk == Some(AskComplete) || s.firstAsk == Some(AskFillGaps) {
      TakeKeepsOrderly(c, s, read, k, s.firstAsk == Some(AskComplete));
    }
  }

  /** An ask keeps this too; reading the sync table again starts a new snapshot. */
  lemma AskKeepsOrderly(c: Config, s: State, ask: Ask, fetched: Option<Snapshot>, read: Snapshot, k: Mark)
    requires c.parallelism > 0 && Orderly(s, read, k)
    requires fetched.Some? ==> Tidy(fetched.value)
    ensures var t := HandleAsk(c, s, ask, fetched);
            if Rereads(c, s, ask, fetched) then Orderly(t, fetched.value, Now(s)) else Orderly(t, read, k)
  {
    if Rereads(c, s, ask, fetched) {
      var u := s.(syncData := fetched.value, eof := false);
      FreshSnapshot(u);
      AskedKeepsOrderly(c, u, fetched.value, Now(s));
    } else if s.active.None? {
      SameSpent(s, s.(firstAsk := Some(ask)), read, k);
      SameSpent(s, Schedule(s), read, k);
      TakeKeepsOrderly(c, s, read, k, ask.AskComplete?);
    }
  }

  /** The ask makes the Syncer take a new snapshot of the sync table. */
  predicate Rereads(c: Config, s: State, ask: Ask, fetched: Option<Snapshot>) {
    c.ranged && s.active.None? && ask.AskUpdateSyncData? && s.eof && fetched.Some?
  }

  /** What this means for one index: it is requested at most once since the snapshot, and only if it was open in it. */
  lemma RequestedOnce(s: State, read: Snapshot, k: Mark, x: nat)
    requires AtMostOnce(s, read, k)
    ensures multiset(s.sent.requested[k.asked..])[x] <= 1
    ensures x in s.sent.requested[k.asked..] ==> Open(read, x) && !Open(s.syncData, x)
    ensures In(s.sent.taken[k.took..], x) <= 1
    ensures In(s.sent.taken[k.took..], x) == 1 ==> Open(read, x) && !Open(s.syncData, x)
  {
    assert Spent(s, k, x) <= One(Open(read, x));
    assert x in s.sent.requested[k.asked..] ==> multiset(s.sent.requested[k.asked..])[x] > 0;
  }
}
