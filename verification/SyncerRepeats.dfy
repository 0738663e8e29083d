/** Exactly when the Syncer hands a milestone over twice after the bootstrap. */
module SyncerRepeats {
  import opened Types
  import opened Ranges
  import opened SyncTable
  import opened SyncerSpec
  import opened SyncerProofs
  import opened SyncerBootstrap
  import opened SyncerRequests
  import opened SyncerHandover

  // ------------------------------------------------------------------------------------------------------------
  // Runs of replies
  // ------------------------------------------------------------------------------------------------------------

  /** A reply to an outstanding request, which the Syncer can take. */
  ghost predicate Fair(s: State, out: multiset<nat>, r: Reply) {
    s.highest != 0 && AcceptsReply(s) && r.Index() in out && (r.Collected? ==> r.data.createdBy.Syncer?)
  }

  ghost function NewRequests(s: State, t: State): seq<nat> {
    if |s.sent.requested| <= |t.sent.requested| then t.sent.requested[|s.sent.requested|..] else []
  }

  ghost function Left(s: State, t: State, out: multiset<nat>, r: Reply): multiset<nat> {
    out - multiset{r.Index()} + multiset(NewRequests(s, t))
  }

  /** The Syncer after the replies, if each of them answers a request outstanding by then. */
  ghost function After(c: Config, s: State, out: multiset<nat>, rs: seq<Reply>): Option<State>
    decreases |rs|
  {
    if rs == [] then Some(s)
    else if !Fair(s, out, rs[0]) then None
    else After(c, HandleReply(c, s, rs[0]), Left(s, HandleReply(c, s, rs[0]), out, rs[0]), rs[1..])
  }

  lemma {:induction false} RunKeepsOnce(c: Config, s: State, out: multiset<nat>, rs: seq<Reply>, l: Log, whole: bool)
    requires Main(c, s, out) && Logs(c, s, l) && Once(s, whole)
    ensures var end := After(c, s, out, rs); end.Some? ==> Once(end.value, whole)
    decreases |rs|
  {
    if rs != [] && Fair(s, out, rs[0]) {
      var t := HandleReply(c, s, rs[0]);
      var news, m := ReplyKeepsMain(c, s, out, rs[0], l);
      assert NewRequests(s, t) == news;
      ReplyKeepsOnce(c, s, out, rs[0], l, whole);
      RunKeepsOnce(c, t, Left(s, t, out, rs[0]), rs[1..], m, whole);
    }
  }

  // ------------------------------------------------------------------------------------------------------------
  // A run that reaches an index
  // ------------------------------------------------------------------------------------------------------------

  /** Everything is in order, nothing is buffered, and the Syncer works on all that is open, or on the gaps. */
  ghost predicate Clean(c: Config, s: State, out: multiset<nat>, whole: bool) {
    && Main(c, s, out) && Collecting(c, s, out) && s.heap == [] && !s.skip
    && s.active.value.Complete? == whole && s.highest <= LAST_GAP_END
  }

  /** `x` will be handed over if no milestone is unreachable. */
  ghost predicate Coming(s: State, whole: bool, x: nat) {
    (s.active.Some? && s.gap.next <= x < s.active.value.range.end) || (x < s.highest && Takes(s.syncData, whole, x))
  }

  function NextData(s: State): MilestoneData {
    NewMilestoneData(s.gap.next, Syncer)
  }

  lemma NextIsOutstanding(c: Config, s: State, out: multiset<nat>, whole: bool)
    requires Clean(c, s, out, whole)
    ensures Fair(s, out, Collected(NextData(s)))
  {
    assert |out| > 0;
    var y :| y in out;
    assert multiset(Indexes(s.heap)) == multiset{};
    assert Owed(s, out, y) >= 1;
    assert Owed(s, out, s.gap.next) == 1;
  }

  /** The state in which the answer for `next` was handed over. */
  function HandedNext(c: Config, s: State): State
    requires s.active.Some? && s.pending > 0 && s.heap == []
  {
    Flush(c, Buffered(s, NextData(s)))
  }

  lemma AnswerIsHandedOver(c: Config, s: State, out: multiset<nat>, x: nat, whole: bool)
    requires Clean(c, s, out, whole) && c.archiving
    ensures var t := HandedNext(c, s);
            && t.heap == [] && !t.skip && t.highest == s.highest && t.syncData == s.syncData
            && t.active.Some? && t.active.value.Complete? == whole && t.active.value.range.end == s.active.value.range.end
            && t.gap.next == s.gap.next + 1
            && Count(t.sent.archived, x) == Count(s.sent.archived, x) + One(x == s.gap.next)
            && HandleReply(c, s, Collected(NextData(s))) == TriggerProcessMore(c, t)
  {
    var u := Buffered(s, NextData(s));
    assert Push([], NextData(s)) == [NextData(s)];
    assert u.heap == [NextData(s)];
    assert FlushOne(c, u).heap == [];
    assert Flush(c, u) == Flush(c, FlushOne(c, u)) == FlushOne(c, u);
    CountSnoc(s.sent.archived, Data(NextData(s), Some(s.gap.end)), x);
  }

  /** The next take starts a gap, and `x` is in it or still open. */
  lemma TakesGap(s: State, x: nat, whole: bool) returns (gap: Range, rest: Snapshot)
    requires Tidy(s.syncData) && s.highest <= LAST_GAP_END
    requires x < s.highest && Takes(s.syncData, whole, x)
    ensures var (r, left) := if whole then TakeUncomplete(s.syncData) else TakeGap(s.syncData);
            && r.Some? && left == rest && rest.Size() < s.syncData.Size() && Tidy(rest)
            && gap == (if r.value.end != LAST_GAP_END then r.value else Range(r.value.start, s.highest))
            && (r.value.end != LAST_GAP_END || s.highest > r.value.start)
    ensures gap.start < gap.end && (gap.Has(x) || Takes(rest, whole, x))
  {
    var (r, left) := if whole then TakeUncomplete(s.syncData) else TakeGap(s.syncData);
    assert s.syncData.gaps != [] || (whole && s.syncData.unlogged != []);
    TakesMove(s.syncData, whole, whole, x);
    TakeIsTidy(s.syncData, whole);
    rest := left;
    gap := if r.value.end != LAST_GAP_END then r.value else Range(r.value.start, s.highest);
  }

  /** Whatever is open below the highest milestone is taken up in the end: the next take starts a gap, and `x` is in it or
      still open. */
  lemma TakesUp(c: Config, s: State, x: nat, whole: bool) returns (news: seq<nat>)
    requires c.parallelism > 0 && s.highest <= LAST_GAP_END
    requires Idle(s, multiset{}) && Tidy(s.syncData)
    requires x < s.highest && Takes(s.syncData, whole, x)
    ensures var t := TakeNext(c, s, whole);
            && Clean(c, t, multiset(news), whole) && Took(s, t, news)
            && Coming(t, whole, x) && t.syncData.Size() < s.syncData.Size() && t.highest == s.highest
  {
    var gap, rest := TakesGap(s, x, whole);
    var u := s.(syncData := rest);
    StartRequests(c, u, gap, whole);
    var t := TakeNext(c, s, whole);
    assert t == TriggerProcessMore(c, Start(u, gap, whole)) == RequestFromActive(Start(u, gap, whole), c.parallelism);
    news := Iota(gap.start, t.active.value.range.start);
  }

  /** The gap is finished: the next one is taken. */
  lemma FinishTakesUp(c: Config, s: State, x: nat, whole: bool) returns (news: seq<nat>)
    requires c.parallelism > 0 && Tidy(s.syncData) && 0 < s.highest <= LAST_GAP_END
    requires s.active.Some? && s.active.value.Complete? == whole && Remaining(s.active.value) == 0
    requires s.pending == 0 && s.heap == [] && !s.skip
    requires x < s.highest && Takes(s.syncData, whole, x)
    ensures var t := TriggerProcessMore(c, s);
            && Clean(c, t, multiset(news), whole) && Requests(s, t, news)
            && Coming(t, whole, x) && t.syncData.Size() < s.syncData.Size() && t.highest == s.highest
            && Count(t.sent.archived, x) == Count(s.sent.archived, x)
  {
    var u := CloseLogFile(c, s).(active := None);
    RequestNone(s);
    RequestAll(s, c.parallelism);
    CountSnoc(s.sent.archived, Close(s.gap.next), x);
    news := TakesUp(c, u, x, whole);
  }

  /** With the last answer outstanding the gap has been requested and handed over to its end. */
  lemma AnswerWasLast(c: Config, s: State, out: multiset<nat>, l: Log, whole: bool)
    requires Clean(c, s, out, whole) && c.archiving && Logs(c, s, l) && Fair(s, out, Collected(NextData(s)))
    requires HandedNext(c, s).pending == 0
    ensures var u := HandedNext(c, s);
            && u.active.Some? && Remaining(u.active.value) == 0 && u.gap.next == u.active.value.range.start
            && Tidy(u.syncData) && u.gap.end == u.active.value.range.end
  {
    var asked, m := ArrivalFlushes(c, s, out, NextData(s), l);
    assert out - multiset{s.gap.next} + multiset(asked) == multiset{};
    NothingLeft(HandedNext(c, s));
  }

  /** What the answer for the next index leads to: the gap goes on, or it is finished and the next one is taken. */
  lemma AnswerAdvances(c: Config, s: State, out: multiset<nat>, x: nat, l: Log, whole: bool)
    requires Clean(c, s, out, whole) && c.archiving && Logs(c, s, l) && Coming(s, whole, x) && x != s.gap.next
    ensures var t := HandleReply(c, s, Collected(NextData(s)));
            && t.active.Some? && t.active.value.Complete? == whole && t.heap == [] && !t.skip && t.highest == s.highest
            && Coming(t, whole, x) && Count(t.sent.archived, x) == Count(s.sent.archived, x)
            && (t.syncData.Size() < s.syncData.Size() || (t.syncData == s.syncData && t.gap.next == s.gap.next + 1
                                                          && t.active.value.range.end == s.active.value.range.end))
  {
    var u := HandedNext(c, s);
    NextIsOutstanding(c, s, out, whole);
    AnswerIsHandedOver(c, s, out, x, whole);
    if u.pending == 0 {
      AnswerWasLast(c, s, out, l, whole);
      var news := FinishTakesUp(c, u, x, whole);
    }
  }

  lemma AnswerKeepsMain(c: Config, s: State, out: multiset<nat>, r: Reply, l: Log) returns (m: Log)
    requires Main(c, s, out) && Logs(c, s, l) && Fair(s, out, r)
    ensures Main(c, HandleReply(c, s, r), Left(s, HandleReply(c, s, r), out, r)) && Logs(c, HandleReply(c, s, r), m)
  {
    var news: seq<nat>;
    news, m := ReplyKeepsMain(c, s, out, r, l);
    assert NewRequests(s, HandleReply(c, s, r)) == news;
  }

  lemma AnswerHandsOver(c: Config, s: State, out: multiset<nat>, l: Log, whole: bool)
    requires Clean(c, s, out, whole) && c.archiving && Logs(c, s, l)
    ensures var t := HandleReply(c, s, Collected(NextData(s)));
            Count(t.sent.archived, s.gap.next) > Count(s.sent.archived, s.gap.next)
  {
    var u := HandedNext(c, s);
    NextIsOutstanding(c, s, out, whole);
    AnswerIsHandedOver(c, s, out, s.gap.next, whole);
    if u.pending == 0 {
      AnswerWasLast(c, s, out, l, whole);
      RequestNone(u);
      RequestAll(u, c.parallelism);
      CountSnoc(u.sent.archived, Close(u.gap.next), s.gap.next);
      var news := TakeNextStarts(c, CloseLogFile(c, u).(active := None), whole);
    }
  }

  /** Main step: whatever still comes can be reached by answering one index after the other. */
  lemma {:induction false} Reaches(c: Config, s: State, out: multiset<nat>, x: nat, l: Log, whole: bool) returns (rs: seq<Reply>)
    requires Clean(c, s, out, whole) && c.archiving && Logs(c, s, l) && Coming(s, whole, x)
    ensures var end := After(c, s, out, rs);
            end.Some? && Count(end.value.sent.archived, x) > Count(s.sent.archived, x)
    decreases s.syncData.Size(), s.active.value.range.end - s.gap.next
  {
    var r := Collected(NextData(s));
    var t := HandleReply(c, s, r);
    NextIsOutstanding(c, s, out, whole);
    var m := AnswerKeepsMain(c, s, out, r, l);
    var rest := [];
    if x == s.gap.next {
      AnswerHandsOver(c, s, out, l, whole);
    } else {
      AnswerAdvances(c, s, out, x, l, whole);
      rest := Reaches(c, t, Left(s, t, out, r), x, m, whole);
    }
    rs := [r] + rest;
    assert rs[1..] == rest;
  }

  // ------------------------------------------------------------------------------------------------------------
  // After the bootstrap
  // ------------------------------------------------------------------------------------------------------------

  /** The Syncer was asked to complete its sync table, not just to fill its gaps. */
  predicate Whole(s: State) {
    s.firstAsk == Some(AskComplete)
  }

  /** The last of the first milestones arrives, and the Syncer was asked to complete its sync table or to fill its gaps. */
  ghost predicate EndsBoot(c: Config, s: State, d: MilestoneData) {
    && c.parallelism > 0 && c.archiving
    && Booting(s) && s.pending == 1 && d.createdBy.Syncer? && (Whole(s) || s.firstAsk == Some(AskFillGaps))
    && Strict(Firsts(s, d)) && 0 < Firsts(s, d)[0].index && LastIndex(Firsts(s, d)) <= LAST_GAP_END
    && Bounded(s.syncData, Whole(s), Begun(c, s, d).highest)
  }

  /** The first milestones, with the last of them. */
  function Firsts(s: State, d: MilestoneData): seq<MilestoneData> {
    Push(s.heap, d)
  }

  /** The state in which the first milestones have been handed over. */
  function Begun(c: Config, s: State, d: MilestoneData): State {
    SendFirst(c, s.(pending := 0, heap := Push(s.heap, d)))
  }

  /** No first milestone below the last run of them is missing from the sync table, or, if that is to be completed,
      unlogged in it. */
  ghost predicate NoneOpen(c: Config, s: State, d: MilestoneData) {
    forall x: nat :: Has(Firsts(s, d), x) && x < Begun(c, s, d).highest ==> !Takes(s.syncData, Whole(s), x)
  }

  lemma FirstsAreCounted(c: Config, s: State, d: MilestoneData, x: nat)
    requires EndsBoot(c, s, d)
    ensures Count(Begun(c, s, d).sent.archived, x) == One(Has(Firsts(s, d), x))
  {
    var u := s.(pending := 0, heap := Push(s.heap, d));
    var events := SendFirstSendsAll(c, u);
    assert [] + events == events;
    RankedOnce(events, x);
    CountMember(events, x);
    if Has(u.heap, x) {
      var i :| 0 <= i < |u.heap| && u.heap[i].index == x;
      assert SyncerBootstrap.Due(u.heap, Data(u.heap[i], None));
      assert Data(u.heap[i], None) in events;
    }
    if Count(events, x) > 0 {
      var i :| 0 <= i < |events| && Carries(events[i], x);
      assert events[i] in events;
      assert SyncerBootstrap.Due(u.heap, events[i]);
    }
  }

  lemma FitsIff(c: Config, s: State, d: MilestoneData)
    requires EndsBoot(c, s, d)
    ensures Agrees(Begun(c, s, d), Whole(s)) <==> NoneOpen(c, s, d)
  {
    var v := Begun(c, s, d);
    assert v.syncData == s.syncData by { var events := SendFirstSendsAll(c, s.(pending := 0, heap := Push(s.heap, d))); }
    forall x: nat
      ensures (Count(v.sent.archived, x) == 0) <==> !Has(Firsts(s, d), x)
    {
      FirstsAreCounted(c, s, d, x);
    }
  }

  /** No run of replies makes the Syncer hand over a milestone twice. */
  ghost predicate NeverTwice(c: Config, s: State, out: multiset<nat>) {
    forall rs, x: nat :: After(c, s, out, rs).Some? ==> Count(After(c, s, out, rs).value.sent.archived, x) <= 1
  }

  lemma OnceIsNeverTwice(c: Config, s: State, out: multiset<nat>, l: Log, whole: bool)
    requires Main(c, s, out) && Logs(c, s, l) && Once(s, whole)
    ensures NeverTwice(c, s, out)
  {
    forall rs, x: nat | After(c, s, out, rs).Some?
      ensures Count(After(c, s, out, rs).value.sent.archived, x) <= 1
    {
      RunKeepsOnce(c, s, out, rs, l, whole);
      assert Load(After(c, s, out, rs).value, whole, x) <= 1;
    }
  }

  /** What the bootstrap leaves behind, and what the Syncer does next. */
  lemma BegunIsIdle(c: Config, s: State, d: MilestoneData) returns (v: State, l: Log)
    requires EndsBoot(c, s, d)
    ensures AcceptsReply(s)
    ensures v.highest > 0 && Idle(v, multiset{}) && v.syncData == s.syncData && Logs(c, v, l)
    ensures v.sent.requested == s.sent.requested && v.highest <= LAST_GAP_END
    ensures HandleMilestoneData(c, s, d) == TriggerProcessMore(c, TakeNext(c, v, Whole(s)))
    ensures v.highest == Begun(c, s, d).highest && v.sent.archived == Begun(c, s, d).sent.archived
  {
    var u := s.(pending := 0, heap := Push(s.heap, d));
    v := SendFirst(c, u);
    PushFromSyncer(s.heap, d);
    l := BootLog(c, u);
    BegunGoesOn(c, s, d);
  }

  lemma BegunGoesOn(c: Config, s: State, d: MilestoneData)
    requires EndsBoot(c, s, d)
    ensures AcceptsReply(s) && Begun(c, s, d).highest <= LAST_GAP_END
    ensures HandleMilestoneData(c, s, d) == TriggerProcessMore(c, TakeNext(c, Begun(c, s, d), Whole(s)))
  {
    var u := s.(pending := 0, heap := Push(s.heap, d));
    LastArrival(c, s, d);
    var events := SendFirstSendsAll(c, u);
    assert Has(u.heap, Begun(c, s, d).highest);
  }

  lemma TakesUpLogged(c: Config, s: State, x: nat, whole: bool, l: Log) returns (t: State, news: seq<nat>, m: Log)
    requires c.parallelism > 0 && s.highest <= LAST_GAP_END
    requires Idle(s, multiset{}) && Tidy(s.syncData) && Logs(c, s, l)
    requires x < s.highest && Takes(s.syncData, whole, x)
    ensures t == TriggerProcessMore(c, TakeNext(c, s, whole))
    ensures Clean(c, t, multiset(news), whole) && Coming(t, whole, x) && Logs(c, t, m)
    ensures t.sent.requested == s.sent.requested + news && t.sent.archived == s.sent.archived
  {
    t := TakeNext(c, s, whole);
    news := TakesUp(c, s, x, whole);
    assert TriggerProcessMore(c, t) == t;
    LogsTakeGap(c, s, t, l, news);
    m := OnGap(t, l);
  }

  /** From an idle Syncer on, whatever is to be taken up is handed over once more in some run. */
  lemma ReachesFromIdle(c: Config, s: State, x: nat, whole: bool, l: Log) returns (t: State, news: seq<nat>, rs: seq<Reply>)
    requires c.parallelism > 0 && c.archiving && s.highest <= LAST_GAP_END
    requires Idle(s, multiset{}) && Tidy(s.syncData) && Logs(c, s, l)
    requires x < s.highest && Takes(s.syncData, whole, x)
    ensures t == TriggerProcessMore(c, TakeNext(c, s, whole)) && t.sent.requested == s.sent.requested + news
    ensures var end := After(c, t, multiset(news), rs);
            end.Some? && Count(end.value.sent.archived, x) > Count(s.sent.archived, x)
  {
    var m: Log;
    t, news, m := TakesUpLogged(c, s, x, whole, l);
    rs := Reaches(c, t, multiset(news), x, m, whole);
  }

  /** A first milestone that is open is handed over again. */
  lemma OpenIsHandedOverAgain(c: Config, s: State, d: MilestoneData, x: nat)
    requires EndsBoot(c, s, d) && AcceptsReply(s)
    requires Has(Firsts(s, d), x) && x < Begun(c, s, d).highest && Takes(s.syncData, Whole(s), x)
    ensures var t := HandleMilestoneData(c, s, d); !NeverTwice(c, t, multiset(NewRequests(s, t)))
  {
    FirstsAreCounted(c, s, d, x);
    var v, l := BegunIsIdle(c, s, d);
    var t, news, rs := ReachesFromIdle(c, v, x, Whole(s), l);
    assert NewRequests(s, t) == news;
  }

  /** Main result: after the bootstrap no run of replies makes the Syncer hand over a milestone twice, exactly when no
      first milestone below the last run of them is still open in the sync table, as far as the Syncer was asked to take
      it up. */
  lemma HandedOverOnceIff(c: Config, s: State, d: MilestoneData)
    requires EndsBoot(c, s, d)
    ensures AcceptsReply(s)
    ensures var t := HandleMilestoneData(c, s, d);
            NeverTwice(c, t, multiset(NewRequests(s, t))) <==> NoneOpen(c, s, d)
  {
    FitsIff(c, s, d);
    if NoneOpen(c, s, d) {
      var news, l := ArrivalEndsBoot(c, s, d);
      BootEndOnce(c, s, d, Whole(s));
      var t := HandleMilestoneData(c, s, d);
      assert NewRequests(s, t) == news;
      OnceIsNeverTwice(c, t, multiset(news), l, Whole(s));
    } else {
      var x: nat :| Has(Firsts(s, d), x) && x < Begun(c, s, d).highest && Takes(s.syncData, Whole(s), x);
      OpenIsHandedOverAgain(c, s, d, x);
    }
  }
}
