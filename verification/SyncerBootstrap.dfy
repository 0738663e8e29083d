/** The bootstrap of the Syncer: what it does with the first milestone data of all Solidifiers. */
module SyncerBootstrap {
  import opened Types
  import opened Ranges
  import opened SyncTable
  import opened SyncerSpec
  import opened SyncerProofs

  ghost predicate Strict(h: seq<MilestoneData>) {
    forall i, j :: 0 <= i < j < |h| ==> h[i].index < h[j].index
  }

  /** One of the data has index `x`. */
  ghost predicate Has(h: seq<MilestoneData>, x: int) {
    exists i :: 0 <= i < |h| && h[i].index == x
  }

  // ------------------------------------------------------------------------------------------------------------
  // What the Archiver receives during the bootstrap
  // ------------------------------------------------------------------------------------------------------------

  /** A place for every event: closing at `n` belongs between the data of `n - 1` and the data of `n`. */
  function Rank(e: ArchiverEvent): nat {
    match e
    case Data(d, _) => 2 * d.index + 1
    case Close(n) => 2 * n
  }

  ghost predicate InRankOrder(events: seq<ArchiverEvent>) {
    forall i, j :: 0 <= i < j < |events| ==> Rank(events[i]) < Rank(events[j])
  }

  /** An event the bootstrap owes to the data in `h`: the data themselves, and a close at every index that follows one
      of them and is missing. */
  ghost predicate Due(h: seq<MilestoneData>, e: ArchiverEvent) {
    match e
    case Data(d, limit) => d in h && limit.None?
    case Close(n) => Has(h, n - 1) && !Has(h, n)
  }

  /** Exactly the due events, each once, in the only order their ranks allow. */
  ghost predicate BootEvents(events: seq<ArchiverEvent>, h: seq<MilestoneData>) {
    InRankOrder(events) && forall e :: e in events <==> Due(h, e)
  }

  /** `x` is where the maximal run of consecutive indexes ending at the highest one starts. */
  ghost predicate LastRunStart(h: seq<MilestoneData>, x: nat)
    requires h != []
  {
    && (forall y :: x <= y <= h[|h| - 1].index ==> Has(h, y))
    && x <= h[|h| - 1].index
    && !Has(h, x - 1)
  }

  /** The events `SendRest` sends for the data `h` when `next` is the index after the last one sent. */
  ghost function Rest(h: seq<MilestoneData>, next: nat): seq<ArchiverEvent> {
    if h == [] then [Close(next)]
    else (if h[0].index != next then [Close(next)] else []) + [Data(h[0], None)] + Rest(h[1..], h[0].index + 1)
  }

  lemma HasCons(h: seq<MilestoneData>, x: int)
    requires h != []
    ensures Has(h, x) <==> x == h[0].index || Has(h[1..], x)
  {
    if Has(h[1..], x) {
      var i :| 0 <= i < |h[1..]| && h[1..][i].index == x;
      assert h[i + 1].index == x;
    }
  }

  /** Below the first of the data nothing else is due. */
  lemma DueCons(h: seq<MilestoneData>, e: ArchiverEvent)
    requires h != [] && Strict(h)
    ensures var after := h[0].index + 1;
            Due(h, e) <==> e == Data(h[0], None) || (e == Close(after) && !Has(h[1..], after)) || Due(h[1..], e)
  {
    assert h == [h[0]] + h[1..];
    if e.Close? {
      HasCons(h, e.index);
      HasCons(h, e.index - 1);
    }
  }

  lemma {:induction false} RestIsDue(h: seq<MilestoneData>, next: nat, e: ArchiverEvent)
    requires Strict(h) && (h != [] ==> next <= h[0].index)
    ensures e in Rest(h, next) <==> (e == Close(next) && !Has(h, next)) || Due(h, e)
    ensures e in Rest(h, next) ==> Rank(e) >= 2 * next
    decreases |h|
  {
    if h != [] {
      RestIsDue(h[1..], h[0].index + 1, e);
      DueCons(h, e);
      HasCons(h, next);
    }
  }

  lemma {:induction false} RestIsInOrder(h: seq<MilestoneData>, next: nat)
    requires Strict(h) && (h != [] ==> next <= h[0].index)
    ensures InRankOrder(Rest(h, next))
    decreases |h|
  {
    if h != [] {
      var tail := Rest(h[1..], h[0].index + 1);
      RestIsInOrder(h[1..], h[0].index + 1);
      forall e | e in tail
        ensures Rank(e) >= 2 * (h[0].index + 1)
      {
        RestIsDue(h[1..], h[0].index + 1, e);
      }
      assert forall i :: 0 <= i < |tail| ==> tail[i] in tail;
    }
  }

  /** The events for the first of the data. */
  ghost function Head(h: seq<MilestoneData>, next: nat): seq<ArchiverEvent>
    requires h != []
  {
    (if h[0].index != next then [Close(next)] else []) + [Data(h[0], None)]
  }

  /** Handing over the first of the data. */
  function SendOne(c: Config, s: State, next: nat): State
    requires s.heap != []
  {
    var t := if s.heap[0].index != next then Archive(c, s.(highest := s.heap[0].index), Close(next)) else s;
    Archive(c, t.(heap := s.heap[1..]), Data(s.heap[0], None))
  }

  lemma SendOneSends(c: Config, s: State, next: nat)
    requires s.heap != []
    ensures var t := SendOne(c, s, next);
            && t == s.(heap := s.heap[1..], highest := t.highest, sent := s.sent.(archived := t.sent.archived))
            && t.sent.archived == (if c.archiving then s.sent.archived + Head(s.heap, next) else s.sent.archived)
            && t.highest == (if s.heap[0].index != next then s.heap[0].index else s.highest)
            && SendRest(c, s, next) == SendRest(c, t, s.heap[0].index + 1)
  {
  }

  ghost function LastIndex(h: seq<MilestoneData>): nat
    requires h != []
  {
    h[|h| - 1].index
  }

  ghost predicate Archives(c: Config, s: State, t: State, events: seq<ArchiverEvent>) {
    t.sent.archived == if c.archiving then s.sent.archived + events else s.sent.archived
  }

  lemma ArchivesMore(c: Config, s: State, t: State, u: State, a: seq<ArchiverEvent>, b: seq<ArchiverEvent>)
    requires Archives(c, s, t, a) && Archives(c, t, u, b)
    ensures Archives(c, s, u, a + b)
  {
    assert s.sent.archived + a + b == s.sent.archived + (a + b);
  }

  lemma {:induction false} SendRestArchives(c: Config, s: State, next: nat)
    ensures Archives(c, s, SendRest(c, s, next), Rest(s.heap, next))
    decreases |s.heap|
  {
    var h := s.heap;
    if h != [] {
      var u := SendOne(c, s, next);
      SendOneSends(c, s, next);
      SendRestArchives(c, u, h[0].index + 1);
      ArchivesMore(c, s, u, SendRest(c, s, next), Head(h, next), Rest(h[1..], h[0].index + 1));
    }
  }

  /** What the bootstrap changes besides the Archiver's events. */
  lemma {:induction false} SendRestFrame(c: Config, s: State, next: nat)
    ensures var t := SendRest(c, s, next);
            && t == s.(heap := [], highest := t.highest, sent := s.sent.(archived := t.sent.archived, frontier := t.sent.frontier))
            && t.sent.frontier == Some(if s.heap == [] then next else LastIndex(s.heap) + 1)
    decreases |s.heap|
  {
    if s.heap != [] {
      SendOneSends(c, s, next);
      SendRestFrame(c, SendOne(c, s, next), s.heap[0].index + 1);
    }
  }

  /** `highest` ends as the start of the last run: it starts one whenever a hole was passed. */
  lemma {:induction false} SendRestHighest(c: Config, s: State, next: nat, all: seq<MilestoneData>, n: nat)
    requires Strict(all) && 0 < n <= |all| && s.heap == all[n..]
    requires next == all[n - 1].index + 1
    requires LastRunStart(all[..n], s.highest)
    ensures LastRunStart(all, SendRest(c, s, next).highest)
    decreases |all| - n
  {
    if n == |all| {
      assert all[..n] == all;
    } else {
      SendOneSends(c, s, next);
      RunGrows(all, n, s.highest);
      SendRestHighest(c, SendOne(c, s, next), all[n].index + 1, all, n + 1);
    }
  }

  lemma RunGrows(all: seq<MilestoneData>, n: nat, start: nat)
    requires Strict(all) && 0 < n < |all|
    requires LastRunStart(all[..n], start)
    ensures LastRunStart(all[..n + 1], if all[n].index != all[n - 1].index + 1 then all[n].index else start)
  {
    var short, long := all[..n], all[..n + 1];
    assert long[n] == all[n] && short[n - 1] == all[n - 1];
    forall y | Has(short, y)
      ensures Has(long, y)
    {
      var i :| 0 <= i < |short| && short[i].index == y;
      assert long[i].index == y;
    }
    assert Has(long, all[n].index);
  }

  /** The first data `h` were handed over by `boot`; what is remembered and announced fits them. */
  ghost predicate HandedOver(h: seq<MilestoneData>, boot: seq<ArchiverEvent>, highest: nat, frontier: Option<nat>)
    requires h != []
  {
    BootEvents(boot, h) && LastRunStart(h, highest) && frontier == Some(LastIndex(h) + 1)
  }

  /** The bootstrap hands over all first milestone data in increasing order, closes the file at every hole and at the
      end, announces the index after the highest one, and remembers where the last run starts. */
  lemma SendFirstSendsAll(c: Config, s: State) returns (events: seq<ArchiverEvent>)
    requires s.heap != [] && Strict(s.heap)
    ensures var t := SendFirst(c, s);
            && HandedOver(s.heap, events, t.highest, t.sent.frontier)
            && Archives(c, s, t, events)
            && t == s.(heap := [], highest := t.highest, sent := s.sent.(archived := t.sent.archived, frontier := t.sent.frontier))
  {
    var h, first := s.heap, s.heap[0].index;
    events := Rest(h, first);
    RestIsExactlyDue(h);
    var u := s.(highest := first);
    SendRestArchives(c, u, first);
    SendRestFrame(c, u, first);
    SendOneSends(c, u, first);
    assert h[..1] == [h[0]];
    assert Has(h[..1], first);
    SendRestHighest(c, SendOne(c, u, first), first + 1, h, 1);
  }

  lemma RestIsExactlyDue(h: seq<MilestoneData>)
    requires h != [] && Strict(h)
    ensures BootEvents(Rest(h, h[0].index), h)
  {
    var events := Rest(h, h[0].index);
    RestIsInOrder(h, h[0].index);
    assert Has(h, h[0].index);
    forall e
      ensures e in events <==> Due(h, e)
    {
      RestIsDue(h, h[0].index, e);
    }
  }

  // ------------------------------------------------------------------------------------------------------------
  // The last of the first milestone data
  // ------------------------------------------------------------------------------------------------------------

  /** Before the bootstrap ends nothing is active, requested or archived. */
  ghost predicate Booting(s: State) {
    && s.highest == 0 && s.active.None? && !s.skip && !s.eof
    && Sorted(s.heap) && AllFromSyncer(s.heap) && Tidy(s.syncData)
    && s.sent.archived == [] && s.sent.requested == [] && s.sent.taken == []
    && s.gap.prevClosed == 0
  }

  /** Another first milestone: it waits in the heap. */
  lemma ArrivalKeepsBooting(c: Config, s: State, d: MilestoneData)
    requires Booting(s) && s.pending > 1 && d.createdBy.Syncer?
    ensures AcceptsReply(s)
    ensures HandleMilestoneData(c, s, d) == s.(pending := s.pending - 1, heap := Push(s.heap, d))
    ensures Booting(HandleMilestoneData(c, s, d))
  {
    PushKeepsOrder(s.heap, d);
    PushFromSyncer(s.heap, d);
  }

  /** The last first milestone: everything is handed over and the Syncer starts on the first gap, if it was asked to. */
  lemma ArrivalEndsBoot(c: Config, s: State, d: MilestoneData) returns (news: seq<nat>, l: Log)
    requires c.parallelism > 0
    requires Booting(s) && s.pending == 1 && d.createdBy.Syncer?
    requires Strict(Push(s.heap, d)) && Push(s.heap, d)[0].index > 0
    ensures AcceptsReply(s)
    ensures var t := HandleMilestoneData(c, s, d);
            && Main(c, t, multiset(news)) && Logs(c, t, l)
            && Requests(s, t, news)
            && HandedOver(Push(s.heap, d), l.boot, t.highest, t.sent.frontier) && l.segments == [] && l.runs == []
  {
    var u := s.(pending := 0, heap := Push(s.heap, d));
    LastArrival(c, s, d);
    l := BootLog(c, u);
    news := AskedStarts(c, SendFirst(c, u));
    LogsTakeGap(c, SendFirst(c, u), HandleMilestoneData(c, s, d), l, news);
    l := OnGap(HandleMilestoneData(c, s, d), l);
  }

  lemma LastArrival(c: Config, s: State, d: MilestoneData)
    requires s.highest == 0 && s.active.None? && !s.skip && s.pending == 1
    ensures HandleMilestoneData(c, s, d)
         == TriggerProcessMore(c, CompleteOrFillGaps(c, SendFirst(c, s.(pending := 0, heap := Push(s.heap, d)))))
  {
  }

  /** The state in which the bootstrap leaves the Syncer, before it starts on the first gap. */
  lemma BootLog(c: Config, s: State) returns (l: Log)
    requires Booting(s) && s.heap != [] && Strict(s.heap) && s.heap[0].index > 0 && s.pending == 0
    ensures var t := SendFirst(c, s);
            && t.highest > 0 && Idle(t, multiset{}) && t.syncData == s.syncData && Logs(c, t, l)
            && HandedOver(s.heap, l.boot, t.highest, t.sent.frontier) && l.segments == [] && l.runs == []
            && t.sent == s.sent.(archived := t.sent.archived, frontier := t.sent.frontier)
  {
    var events := SendFirstSendsAll(c, s);
    l := Log(events, [], [], [], 0);
    assert Flatten(l.segments) == [];
    assert [] + events == events + [] + [];
    assert Has(s.heap, SendFirst(c, s).highest);
  }

  /** An idle Syncer starts on what it was asked for first, or goes on waiting. */
  lemma AskedStarts(c: Config, s: State) returns (news: seq<nat>)
    requires c.parallelism > 0 && s.highest > 0
    requires Idle(s, multiset{}) && Tidy(s.syncData)
    ensures var t := TriggerProcessMore(c, CompleteOrFillGaps(c, s));
            && Main(c, t, multiset(news)) && Took(s, t, news)
            && t.highest == s.highest && t.sent.frontier == s.sent.frontier
  {
    var u := CompleteOrFillGaps(c, s);
    if s.firstAsk == Some(AskComplete) || s.firstAsk == Some(AskFillGaps) {
      news := TakeNextStarts(c, s, s.firstAsk == Some(AskComplete));
      if u.active.None? {
        assert TriggerProcessMore(c, u) == Schedule(u.(eof := true));
      }
    } else {
      news := [];
      assert s.sent.requested + [] == s.sent.requested;
      assert TriggerProcessMore(c, s) == Schedule(s.(eof := true));
    }
  }

  // ------------------------------------------------------------------------------------------------------------
  // Asks
  // ------------------------------------------------------------------------------------------------------------

  /** An ask during the bootstrap is at most remembered. */
  lemma AskKeepsBooting(c: Config, s: State, ask: Ask, fetched: Option<Snapshot>)
    requires Booting(s)
    ensures var t := HandleAsk(c, s, ask, fetched); Booting(t) && t == s.(firstAsk := t.firstAsk)
  {
  }

  /** An ask after the bootstrap is ignored while a gap is in progress; else it starts the next gap, after reading the
      sync table again if it asks for that. */
  lemma AskKeepsMain(c: Config, s: State, out: multiset<nat>, ask: Ask, fetched: Option<Snapshot>, l: Log)
    returns (news: seq<nat>)
    requires Main(c, s, out) && Logs(c, s, l)
    requires fetched.Some? ==> Tidy(fetched.value)
    ensures var t := HandleAsk(c, s, ask, fetched);
            && Main(c, t, out + multiset(news))
            && Requests(s, t, news)
            && Logs(c, t, OnGap(t, l))
  {
    var t := HandleAsk(c, s, ask, fetched);
    if s.active.None? && !ask.AskUpdateSyncData? {
      news := TakeNextStarts(c, s, ask.AskComplete?);
      LogsTakeGap(c, s, t, l, news);
    } else if s.active.None? && s.eof && c.ranged && fetched.Some? {
      var u := s.(syncData := fetched.value, eof := false);
      news := AskStarts(c, u);
      LogsTakeGap(c, u, t, l, news);
    } else {
      news := [];
      assert s.sent.requested + [] == s.sent.requested;
      assert out + multiset(news) == out;
    }
    assert out == multiset{} ==> out + multiset(news) == multiset(news);
  }

  lemma AskStarts(c: Config, s: State) returns (news: seq<nat>)
    requires c.parallelism > 0 && s.highest > 0
    requires Idle(s, multiset{}) && Tidy(s.syncData)
    ensures var t := CompleteOrFillGaps(c, s);
            && Main(c, t, multiset(news)) && Took(s, t, news)
  {
    if s.firstAsk == Some(AskComplete) || s.firstAsk == Some(AskFillGaps) {
      news := TakeNextStarts(c, s, s.firstAsk == Some(AskComplete));
    } else {
      news := [];
      assert s.sent.requested + [] == s.sent.requested;
    }
  }

  // ------------------------------------------------------------------------------------------------------------
  // What the bootstrap relies on
  // ------------------------------------------------------------------------------------------------------------

  /** The Syncer after the replies, of any kind and in any order. None when it cannot handle one of them: as the last of
      the first replies, an unreachable milestone makes it skip the active gap, and there is none. */
  function AfterReplies(c: Config, s: State, rs: seq<Reply>): Option<State>
    decreases |rs|
  {
    if rs == [] then Some(s)
    else if !Accepts(s, rs[0]) then None
    else AfterReplies(c, HandleReply(c, s, rs[0]), rs[1..])
  }

  ghost predicate SomeUnreachable(rs: seq<Reply>) {
    exists i :: 0 <= i < |rs| && rs[i].Unreachable?
  }

  /** The indexes of the milestones that were collected. */
  function CollectedOf(rs: seq<Reply>): seq<nat> {
    if rs == [] then [] else (if rs[0].Collected? then [rs[0].data.index] else []) + CollectedOf(rs[1..])
  }

  /** Still waiting for `n` of the first milestones. */
  ghost predicate Awaits(s: State, n: nat) {
    s.highest == 0 && s.active.None? && s.pending == n
  }

  lemma EarlyReply(c: Config, s: State, r: Reply) returns (t: State)
    requires Awaits(s, s.pending) && s.pending > 1
    ensures Accepts(s, r) && t == HandleReply(c, s, r) && Awaits(t, s.pending - 1)
    ensures t.skip == (s.skip || r.Unreachable?)
    ensures multiset(Indexes(t.heap)) == multiset(Indexes(s.heap)) + multiset(CollectedOf([r]))
  {
    t := HandleReply(c, s, r);
    assert [r][1..] == [];
    if r.Collected? { PushAddsIndex(s.heap, r.data); }
  }

  lemma CollectedCons(r: Reply, rest: seq<Reply>)
    ensures multiset(CollectedOf([r] + rest)) == multiset(CollectedOf([r])) + multiset(CollectedOf(rest))
    ensures SomeUnreachable([r] + rest) <==> r.Unreachable? || SomeUnreachable(rest)
  {
    var all := [r] + rest;
    assert all[0] == r && all[1..] == rest && [r][1..] == [];
    if SomeUnreachable(rest) {
      var i :| 0 <= i < |rest| && rest[i].Unreachable?;
      assert all[i + 1].Unreachable?;
    }
  }

  lemma {:induction false} EarlyReplies(c: Config, s: State, rs: seq<Reply>) returns (t: State)
    requires Awaits(s, |rs| + 1)
    ensures AfterReplies(c, s, rs) == Some(t) && Awaits(t, 1)
    ensures t.skip == (s.skip || SomeUnreachable(rs))
    ensures multiset(Indexes(t.heap)) == multiset(Indexes(s.heap)) + multiset(CollectedOf(rs))
    decreases |rs|
  {
    t := s;
    if rs != [] {
      t := EarlyReply(c, s, rs[0]);
      var one, rest := CollectedOf([rs[0]]), CollectedOf(rs[1..]);
      t := EarlyReplies(c, t, rs[1..]);
      CollectedCons(rs[0], rs[1..]);
      assert rs == [rs[0]] + rs[1..];
    }
  }

  lemma {:induction false} OneReplyMore(c: Config, s: State, rs: seq<Reply>, t: State, r: Reply)
    requires AfterReplies(c, s, rs) == Some(t)
    ensures AfterReplies(c, s, rs + [r]) == if Accepts(t, r) then Some(HandleReply(c, t, r)) else None
    decreases |rs|
  {
    if rs == [] {
      assert [] + [r] == [r] && [r][1..] == [];
    } else {
      assert (rs + [r])[1..] == rs[1..] + [r];
      OneReplyMore(c, HandleReply(c, s, rs[0]), rs[1..], t, r);
    }
  }

  lemma LastEarlyReply(c: Config, t: State, r: Reply) returns (u: State)
    requires Awaits(t, 1)
    ensures Accepts(t, r) <==> r.Collected?
    ensures u.pending == 0 && u.highest == 0 && u.active.None? && u.skip == t.skip
    ensures multiset(Indexes(u.heap)) == multiset(Indexes(t.heap)) + (if r.Collected? then multiset{r.data.index} else multiset{})
    ensures r.Collected? ==> u.heap != []
    ensures r.Collected? ==> HandleReply(c, t, r) == TriggerProcessMore(c, CompleteOrFillGaps(c, SendFirst(c, u)))
  {
    u := t.(pending := 0);
    if r.Collected? {
      u := u.(heap := Push(t.heap, r.data));
      PushAddsIndex(t.heap, r.data);
    }
  }

  /** With one reply for each Solidifier: the Syncer fails exactly when the last of them reports a milestone unreachable.
      Else it hands over the first milestones without those reported unreachable, and goes on; `skip` is set if there were
      any, and `u` is the state in which it does so. */
  lemma EarlyUnreachable(c: Config, s: State, rs: seq<Reply>, r: Reply) returns (u: State)
    requires Awaits(s, |rs| + 1)
    ensures AfterReplies(c, s, rs + [r]).None? <==> r.Unreachable?
    ensures u.pending == 0 && u.highest == 0 && u.active.None? && u.skip == (s.skip || SomeUnreachable(rs))
    ensures multiset(Indexes(u.heap)) == multiset(Indexes(s.heap)) + multiset(CollectedOf(rs + [r]))
    ensures r.Collected? ==> u.heap != []
    ensures r.Collected? ==> AfterReplies(c, s, rs + [r]) == Some(TriggerProcessMore(c, CompleteOrFillGaps(c, SendFirst(c, u))))
  {
    var t := EarlyReplies(c, s, rs);
    OneReplyMore(c, s, rs, t, r);
    u := LastEarlyReply(c, t, r);
    CollectedSnoc(rs, r);
  }

  lemma {:induction false} CollectedSnoc(rs: seq<Reply>, r: Reply)
    ensures multiset(CollectedOf(rs + [r]))
         == multiset(CollectedOf(rs)) + (if r.Collected? then multiset{r.data.index} else multiset{})
    decreases |rs|
  {
    if rs == [] {
      assert [] + [r] == [r] && [r][1..] == [];
    } else {
      CollectedSnoc(rs[1..], r);
      assert (rs + [r])[1..] == rs[1..] + [r];
    }
  }
}
