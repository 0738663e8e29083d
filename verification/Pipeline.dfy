/** Every run of the Syncer with its Solidifiers, in any order of events, requests, replies and asks. */
module Pipeline {
  import opened Types
  import opened Ranges
  import Sync = SyncTable
  import opened SyncerSpec
  import opened SyncerProofs
  import opened SyncerBootstrap
  import SyncerRequests
  import SyncerFrames
  import So = SolidifierSpec
  import opened SolidifierProofs
  import opened SolidifierRuns
  import opened Tokens
  import opened PipelineSpec
  import Cones = SolidifierCones

  /** The past of a run: what the Archiver received, and the first milestone data. */
  datatype Past = Past(log: Log, firsts: seq<MilestoneData>)

  // ------------------------------------------------------------------------------------------------------------
  // Invariant
  // ------------------------------------------------------------------------------------------------------------

  ghost predicate SoundSol(tangle: Cones.Tangle, t: Trace, id: nat, count: nat) {
    && Good(tangle, t) && t.state.id == id && t.state.count == count && t.state.gapStart >= 1
    && (t.state.first.Some? ==> t.state.first.value <= LAST_GAP_END)
  }

  ghost predicate SoundSols(tangle: Cones.Tangle, sols: seq<Trace>) {
    |sols| > 0 && forall i :: 0 <= i < |sols| ==> SoundSol(tangle, sols[i], i, |sols|)
  }

  /** `d` was sent to the Syncer by the Solidifier of its residue class. */
  ghost predicate Origin(sols: seq<Trace>, d: MilestoneData) {
    |sols| > 0 && So.ToSyncer(Collected(d)) in sols[d.index % |sols|].sent
  }

  ghost predicate Origins(sols: seq<Trace>, replies: seq<Reply>, syncer: State) {
    && (forall i :: 0 <= i < |replies| && replies[i].Collected? ==>
          Origin(sols, replies[i].data) && replies[i].data.createdBy.Syncer?)
    && (forall d :: SyncerFrames.Held(syncer, d) ==> Origin(sols, d))
  }

  /** The books of the run: the first milestones of the `count` Solidifiers, what is outstanding, whether a request is
      in flight, what was answered, and what the sync table held when it was last read, and when that was. */
  datatype Books = Books(
    count: nat, firsts: multiset<nat>, out: multiset<nat>, idle: bool, answered: multiset<nat>, read: Sync.Snapshot,
    mark: SyncerRequests.Mark)

  ghost function BooksOf(sys: System): Books {
    Books(|sys.sols|, Firsts(sys.sols), Outstanding(sys), sys.toSol == [], sys.answered, sys.read, sys.mark)
  }

  /** Each request, and each first milestone, has been answered or is outstanding, exactly once. */
  ghost predicate Conserved(s: State, b: Books) {
    multiset(s.sent.requested) + b.firsts == b.answered + b.out
  }

  ghost predicate BootPhase(s: State, b: Books) {
    && Booting(s) && b.idle
    && s.pending + |b.firsts| == b.count + |b.out|
    && multiset(Indexes(s.heap)) == b.answered
    && b.read == s.syncData && b.mark == SyncerRequests.Mark(0, 0)
  }

  /** The bootstrap handed over exactly the first milestones of all Solidifiers. */
  ghost predicate Booted(s: State, b: Books, p: Past) {
    && |b.firsts| == b.count
    && p.firsts != [] && Strict(p.firsts)
    && multiset(Indexes(p.firsts)) == b.firsts
    && HandedOver(p.firsts, p.log.boot, s.highest, s.sent.frontier)
  }

  ghost predicate MainPhase(c: Config, s: State, b: Books, p: Past) {
    && Booted(s, b, p)
    && Main(c, s, b.out)
    && Logs(c, s, p.log)
    && SyncerRequests.Orderly(s, b.read, b.mark)
  }

  ghost predicate Balanced(c: Config, s: State, b: Books, p: Past) {
    && c.parallelism > 0
    && Conserved(s, b)
    && (if s.highest == 0 then BootPhase(s, b) else MainPhase(c, s, b, p))
  }

  ghost predicate Inv(tangle: Cones.Tangle, c: Config, sys: System, p: Past) {
    && SoundSols(tangle, sys.sols)
    && Origins(sys.sols, sys.toSyncer, sys.syncer)
    && Balanced(c, sys.syncer, BooksOf(sys), p)
  }

  // ------------------------------------------------------------------------------------------------------------
  // A step of a Solidifier
  // ------------------------------------------------------------------------------------------------------------

  lemma SolsInClass(tangle: Cones.Tangle, sols: seq<Trace>)
    requires SoundSols(tangle, sols)
    ensures InClass(sols, |sols|)
    ensures forall x :: x in Firsts(sols) ==> 1 <= x <= LAST_GAP_END
  {
    forall i | 0 <= i < |sols| && sols[i].state.first.Some?
      ensures sols[i].state.first.value % |sols| == i
    {
      assert SoundSol(tangle, sols[i], i, |sols|);
    }
    forall x | x in Firsts(sols)
      ensures 1 <= x <= LAST_GAP_END
    {
      FirstsDistinct(sols, |sols|, x);
      assert SoundSol(tangle, sols[x % |sols|], x % |sols|, |sols|);
    }
  }

  ghost predicate Fits(tangle: Cones.Tangle, e: So.Event, i: nat, count: nat) {
    count > 0 && Subject(e) % count == i && Cones.GenuineEvent(tangle, e) && (e.Solidify? || Subject(e) <= LAST_GAP_END)
  }

  lemma StepKeepsSoundSol(tangle: Cones.Tangle, t: Trace, i: nat, count: nat, e: So.Event)
    requires SoundSol(tangle, t, i, count) && Fits(tangle, e, i, count)
    ensures SoundSol(tangle, Next(t, Handle(e)), i, count)
  {
    NextKeepsGood(tangle, t, Handle(e));
    NextKeepsId(t, Handle(e));
    GapStartStays(t.state, e);
    FirstIsSubject(t.state, e);
  }

  lemma GapStartStays(s: So.State, e: So.Event)
    requires Indexed(s)
    ensures So.Step(s, e).0.gapStart == s.gapStart
  {
    if Arrives(e) && Subject(e) in s.entries {
      StoreTouches(s, e);
    }
  }

  lemma FirstIsSubject(s: So.State, e: So.Event)
    requires Indexed(s)
    ensures var t := So.Step(s, e).0; t.first == s.first || (Arrives(e) && s.first.None? && t.first == Some(Subject(e)))
  {
    if Arrives(e) && Subject(e) in s.entries {
      StoreTouches(s, e);
    }
  }

  lemma StepKeepsSols(tangle: Cones.Tangle, sols: seq<Trace>, i: nat, e: So.Event)
    requires SoundSols(tangle, sols) && i < |sols| && Fits(tangle, e, i, |sols|)
    ensures SoundSols(tangle, sols[i := Next(sols[i], Handle(e))])
  {
    assert SoundSol(tangle, sols[i], i, |sols|);
    StepKeepsSoundSol(tangle, sols[i], i, |sols|, e);
    var out := sols[i := Next(sols[i], Handle(e))];
    forall k | 0 <= k < |out|
      ensures SoundSol(tangle, out[k], k, |out|)
    {
      assert SoundSol(tangle, sols[k], k, |sols|);
    }
  }

  /** Everything outstanding stays so but for what the event adds. */
  lemma StepConserves(sys: System, i: nat, e: So.Event)
    requires i < |sys.sols| && Indexed(sys.sols[i].state)
    ensures var s, u := sys.sols[i].state, AtSolidifier(sys, i, e);
            && Outstanding(u) == Outstanding(sys) + Added(s, So.Step(s, e).0, e)
            && Firsts(u.sols) + FirstOf(sys.sols[i]) == Firsts(sys.sols) + FirstOf(u.sols[i])
  {
    var t := Next(sys.sols[i], Handle(e));
    var outs := So.Step(sys.sols[i].state, e).1;
    StepBalances(sys.sols[i].state, e);
    InsideAt(sys.sols, i, t);
    FirstsAt(sys.sols, i, t);
    MoreReplies(sys.toSyncer, Replies(outs));
    Move(Inside(sys.sols), Inside(sys.sols[i := t]), multiset(Awaited(sys.sols[i].state)), multiset(Awaited(t.state)),
         Answers(outs), Added(sys.sols[i].state, t.state, e), multiset(sys.toSol), multiset(ReplyIndexes(sys.toSyncer)));
  }

  lemma Move(owed: multiset<nat>, owed': multiset<nat>, a: multiset<nat>, a': multiset<nat>,
             answers: multiset<nat>, added: multiset<nat>, requests: multiset<nat>, replies: multiset<nat>)
    requires owed' + a == owed + a'
    requires a' + answers == a + added
    ensures owed' + requests + (replies + answers) == owed + requests + replies + added
  {
    forall x
      ensures (owed' + requests + (replies + answers))[x] == (owed + requests + replies + added)[x]
    {
      assert (owed' + a)[x] == (owed + a')[x];
      assert (a' + answers)[x] == (a + added)[x];
    }
  }

  /** What was sent stays sent. */
  lemma OriginStays(sols: seq<Trace>, i: nat, e: So.Event, d: MilestoneData)
    requires i < |sols| && sols[i].state.count > 0 && Origin(sols, d)
    ensures Origin(sols[i := Next(sols[i], Handle(e))], d)
  {
  }

  /** The data of a new reply come from Solidifier `i`. */
  lemma NewReplyOrigin(sols: seq<Trace>, i: nat, e: So.Event, k: nat)
    requires i < |sols| && Indexed(sols[i].state) && Subject(e) % |sols| == i
    requires k < |Replies(So.Step(sols[i].state, e).1)|
    ensures var r := Replies(So.Step(sols[i].state, e).1)[k];
            r.Collected? ==> Origin(sols[i := Next(sols[i], Handle(e))], r.data) && r.data.createdBy.Syncer?
  {
    var s := sols[i].state;
    var outs := So.Step(s, e).1;
    var r := Replies(outs)[k];
    RepliesAreSent(outs, k);
    if r.Collected? {
      StepBalances(s, e);
      SentInClass(s, e, r.data);
      assert So.ToSyncer(r) in sols[i].sent + outs;
    }
  }

  lemma StepKeepsOrigins(sys: System, i: nat, e: So.Event)
    requires i < |sys.sols| && Indexed(sys.sols[i].state)
    requires Origins(sys.sols, sys.toSyncer, sys.syncer)
    requires Subject(e) % |sys.sols| == i
    ensures var u := AtSolidifier(sys, i, e); Origins(u.sols, u.toSyncer, u.syncer)
  {
    var sols, replies := sys.sols[i := Next(sys.sols[i], Handle(e))], sys.toSyncer + Replies(So.Step(sys.sols[i].state, e).1);
    forall d | Origin(sys.sols, d)
      ensures Origin(sols, d)
    {
      OriginStays(sys.sols, i, e, d);
    }
    forall k | 0 <= k < |replies| && replies[k].Collected?
      ensures Origin(sols, replies[k].data) && replies[k].data.createdBy.Syncer?
    {
      if k < |sys.toSyncer| {
        assert replies[k] == sys.toSyncer[k];
      } else {
        NewReplyOrigin(sys.sols, i, e, k - |sys.toSyncer|);
      }
    }
  }

  lemma {:induction false} RepliesAreSent(outs: seq<So.Out>, k: nat)
    requires k < |Replies(outs)|
    ensures So.ToSyncer(Replies(outs)[k]) in outs
    decreases |outs|
  {
    if outs[0].ToSyncer? && k == 0 {
    } else {
      RepliesAreSent(outs[1..], if outs[0].ToSyncer? then k - 1 else k);
    }
  }

  lemma PushSends(s: So.State, index: nat, d: MilestoneData)
    requires index in s.entries && So.ToSyncer(Collected(d)) in So.PushIfCompleted(s, index).1
    ensures d == s.entries[index]
  {
  }

  lemma InsertSendsNothing(s: So.State, index: nat, m: FullMessage, o: So.Out)
    requires s.count > 0 && index !in s.entries
    ensures o in So.InsertNewEntryOrNot(s, index, m).1 ==> !o.ToSyncer?
  {
  }

  /** Milestone data leave only for the milestone of the event. */
  lemma SentInClass(s: So.State, e: So.Event, d: MilestoneData)
    requires Indexed(s) && So.ToSyncer(Collected(d)) in So.Step(s, e).1
    ensures d.index == Subject(e)
  {
    var index := Subject(e);
    if Arrives(e) && index in s.entries {
      var stored := So.Stored(s.entries[index], e.message);
      var u := s.(entries := s.entries[index := if e.Message? then stored else stored.(milestone := Some(e.message.id))]);
      assert So.Step(s, e).1 == So.ParentAsks(s.entries[index], index, e.message) + So.PushIfCompleted(u, index).1;
      PushSends(u, index, d);
    } else if Arrives(e) {
      InsertSendsNothing(s, index, e.message, So.ToSyncer(Collected(d)));
    } else if e.CloseMessage? && index in s.entries {
      PushSends(s.(entries := s.entries[index := s.entries[index].(pending := s.entries[index].pending - {e.id})]), index, d);
    }
  }

  // ------------------------------------------------------------------------------------------------------------
  // Actions at the Solidifiers
  // ------------------------------------------------------------------------------------------------------------

  lemma Cancel(a: multiset<nat>, b: multiset<nat>, x: multiset<nat>)
    requires a + x == b + x
    ensures a == b
  {
    forall k
      ensures a[k] == b[k]
    {
      assert (a + x)[k] == (b + x)[k];
    }
  }

  /** A new first milestone is outstanding from the start. */
  lemma NewFirstKeepsBalance(c: Config, s: State, b: Books, added: multiset<nat>, p: Past)
    requires Balanced(c, s, b, p) && |b.firsts + added| <= b.count && |added| <= 1
    ensures Balanced(c, s, b.(firsts := b.firsts + added, out := b.out + added), p)
  {
    assert |b.firsts + added| == |b.firsts| + |added|;
    var requested := multiset(s.sent.requested);
    assert requested + (b.firsts + added) == (requested + b.firsts) + added;
    assert b.answered + (b.out + added) == (b.answered + b.out) + added;
    if s.highest != 0 {
      assert added == multiset{};
      assert b.firsts + added == b.firsts && b.out + added == b.out;
    }
  }

  /** An event from outside: the first milestone of a Solidifier becomes outstanding; else nothing is added. */
  lemma DeliverAdds(sys: System, i: nat, e: So.Event) returns (added: multiset<nat>)
    requires i < |sys.sols| && Indexed(sys.sols[i].state) && !e.Solidify?
    ensures |added| <= 1
    ensures var b, u := BooksOf(sys), AtSolidifier(sys, i, e);
            BooksOf(u) == b.(firsts := b.firsts + added, out := b.out + added) && |b.firsts + added| <= b.count
  {
    var s, u := sys.sols[i].state, AtSolidifier(sys, i, e);
    added := Added(s, So.Step(s, e).0, e);
    StepConserves(sys, i, e);
    AddedIsFirst(sys.sols[i], e);
    FirstsGrow(sys, i, e, added);
    FirstsAreMany(u.sols);
  }

  lemma FirstsGrow(sys: System, i: nat, e: So.Event, added: multiset<nat>)
    requires i < |sys.sols| && Indexed(sys.sols[i].state)
    requires FirstOf(Next(sys.sols[i], Handle(e))) == FirstOf(sys.sols[i]) + added
    ensures Firsts(AtSolidifier(sys, i, e).sols) == Firsts(sys.sols) + added
  {
    var t := Next(sys.sols[i], Handle(e));
    var before := FirstOf(sys.sols[i]);
    FirstsAt(sys.sols, i, t);
    assert Firsts(sys.sols) + (before + added) == (Firsts(sys.sols) + added) + before;
    Cancel(Firsts(sys.sols[i := t]), Firsts(sys.sols) + added, before);
  }

  /** What becomes outstanding with an event that is not a request is the first milestone, if there is a new one. */
  lemma AddedIsFirst(t: Trace, e: So.Event)
    requires Indexed(t.state) && !e.Solidify?
    ensures var added := Added(t.state, So.Step(t.state, e).0, e);
            |added| <= 1 && FirstOf(Next(t, Handle(e))) == FirstOf(t) + added
  {
    FirstIsSubject(t.state, e);
  }

  lemma DeliverKeepsInv(tangle: Cones.Tangle, c: Config, sys: System, i: nat, e: So.Event, p: Past)
    requires Inv(tangle, c, sys, p)
    requires i < |sys.sols| && !e.Solidify? && Fits(tangle, e, i, |sys.sols|)
    ensures Inv(tangle, c, AtSolidifier(sys, i, e), p)
  {
    assert SoundSol(tangle, sys.sols[i], i, |sys.sols|);
    StepKeepsSols(tangle, sys.sols, i, e);
    StepKeepsOrigins(sys, i, e);
    var added := DeliverAdds(sys, i, e);
    NewFirstKeepsBalance(c, sys.syncer, BooksOf(sys), added, p);
  }

  /** A request reaches its Solidifier: it stays outstanding, there or as an answer. */
  lemma RequestMoves(sys: System, k: nat)
    requires k < |sys.toSol| && |sys.sols| > 0
    requires Indexed(sys.sols[sys.toSol[k] % |sys.sols|].state)
    ensures var x := sys.toSol[k];
            var u := AtSolidifier(sys.(toSol := Without(sys.toSol, k)), x % |sys.sols|, So.Solidify(x));
            BooksOf(u) == BooksOf(sys).(idle := u.toSol == [])
  {
    var x := sys.toSol[k];
    var i, before := x % |sys.sols|, sys.(toSol := Without(sys.toSol, k));
    StepConserves(before, i, So.Solidify(x));
    FirstIsSubject(sys.sols[i].state, So.Solidify(x));
    assert FirstOf(Next(sys.sols[i], Handle(So.Solidify(x)))) == FirstOf(sys.sols[i]) + multiset{};
    FirstsGrow(before, i, So.Solidify(x), multiset{});
    TakenOut(sys, k);
  }

  lemma TakenOut(sys: System, k: nat)
    requires k < |sys.toSol|
    ensures Outstanding(sys.(toSol := Without(sys.toSol, k))) + multiset{sys.toSol[k]} == Outstanding(sys)
  {
    WithoutOne(sys.toSol, k);
  }

  lemma IdleIsFree(c: Config, s: State, b: Books, idle: bool, p: Past)
    requires Balanced(c, s, b, p) && !b.idle
    ensures Balanced(c, s, b.(idle := idle), p)
  {
  }

  lemma RequestKeepsInv(tangle: Cones.Tangle, c: Config, sys: System, k: nat, p: Past)
    requires Inv(tangle, c, sys, p) && k < |sys.toSol|
    ensures var x := sys.toSol[k];
            Inv(tangle, c, AtSolidifier(sys.(toSol := Without(sys.toSol, k)), x % |sys.sols|, So.Solidify(x)), p)
  {
    var x := sys.toSol[k];
    var i := x % |sys.sols|;
    assert SoundSol(tangle, sys.sols[i], i, |sys.sols|);
    StepKeepsSols(tangle, sys.sols, i, So.Solidify(x));
    StepKeepsOrigins(sys.(toSol := Without(sys.toSol, k)), i, So.Solidify(x));
    RequestMoves(sys, k);
    IdleIsFree(c, sys.syncer, BooksOf(sys), Without(sys.toSol, k) == [], p);
  }

  lemma ForgetMovesNothing(sys: System, i: nat, drop: set<nat>, dropDb: set<nat>)
    requires i < |sys.sols| && sys.sols[i].state.count > 0
    ensures BooksOf(sys.(sols := sys.sols[i := Next(sys.sols[i], Evict(drop, dropDb))])) == BooksOf(sys)
  {
    var t := Next(sys.sols[i], Evict(drop, dropDb));
    InsideAt(sys.sols, i, t);
    FirstsAt(sys.sols, i, t);
    assert Awaited(t.state) == Awaited(sys.sols[i].state);
    Cancel(Inside(sys.sols[i := t]), Inside(sys.sols), multiset(Awaited(t.state)));
    Cancel(Firsts(sys.sols[i := t]), Firsts(sys.sols), FirstOf(t));
  }

  lemma ForgetKeepsInv(tangle: Cones.Tangle, c: Config, sys: System, i: nat, drop: set<nat>, dropDb: set<nat>, p: Past)
    requires Inv(tangle, c, sys, p) && i < |sys.sols|
    ensures Inv(tangle, c, sys.(sols := sys.sols[i := Next(sys.sols[i], Evict(drop, dropDb))]), p)
  {
    var t := Next(sys.sols[i], Evict(drop, dropDb));
    assert SoundSol(tangle, sys.sols[i], i, |sys.sols|);
    EvictKeepsGood(tangle, sys.sols[i], Evict(drop, dropDb));
    ForgetKeepsSols(tangle, sys.sols, i, t);
    ForgetMovesNothing(sys, i, drop, dropDb);
    SameSent(sys.sols, i, t, sys.toSyncer, sys.syncer);
  }

  lemma SameSent(sols: seq<Trace>, i: nat, t: Trace, replies: seq<Reply>, syncer: State)
    requires i < |sols| && t.sent == sols[i].sent && Origins(sols, replies, syncer)
    ensures Origins(sols[i := t], replies, syncer)
  {
    forall d | Origin(sols, d)
      ensures Origin(sols[i := t], d)
    {
    }
  }

  lemma ForgetKeepsSols(tangle: Cones.Tangle, sols: seq<Trace>, i: nat, t: Trace)
    requires SoundSols(tangle, sols) && i < |sols| && SoundSol(tangle, t, i, |sols|)
    ensures SoundSols(tangle, sols[i := t])
  {
    var out := sols[i := t];
    forall k | 0 <= k < |out|
      ensures SoundSol(tangle, out[k], k, |out|)
    {
      assert SoundSol(tangle, sols[k], k, |sols|);
    }
  }

  // ------------------------------------------------------------------------------------------------------------
  // Replies at the Syncer
  // ------------------------------------------------------------------------------------------------------------

  /** First milestones are distinct, not zero, and below the end of the last gap. */
  ghost predicate ProperFirsts(b: Books) {
    |b.firsts| <= b.count && forall x :: b.firsts[x] <= 1 && (x in b.firsts ==> 1 <= x <= LAST_GAP_END)
  }

  lemma SolsHaveProperFirsts(tangle: Cones.Tangle, sys: System)
    requires SoundSols(tangle, sys.sols)
    ensures ProperFirsts(BooksOf(sys))
  {
    SolsInClass(tangle, sys.sols);
    FirstsAreMany(sys.sols);
    forall x
      ensures Firsts(sys.sols)[x] <= 1
    {
      FirstsDistinct(sys.sols, |sys.sols|, x);
    }
  }

  /** The books after reply `r`, with `news` requested. */
  ghost function Answered(b: Books, r: Reply, news: seq<nat>): Books {
    b.(out := b.out - multiset{r.Index()} + multiset(news), idle := b.idle && news == [], answered := b.answered + multiset{r.Index()})
  }

  ghost predicate Acceptable(s: State, b: Books, r: Reply) {
    r.Index() in b.out && (if r.Collected? then r.data.createdBy.Syncer? else s.highest != 0)
  }

  lemma AnsweredConserves(s: State, t: State, b: Books, r: Reply, news: seq<nat>)
    requires Conserved(s, b) && r.Index() in b.out && Requests(s, t, news)
    ensures Conserved(t, Answered(b, r, news))
  {
    var one, more, requested := multiset{r.Index()}, multiset(news), multiset(s.sent.requested);
    assert b.out - one + one == b.out;
    assert multiset(t.sent.requested) == requested + more;
    assert (requested + more) + b.firsts == (requested + b.firsts) + more;
    assert (b.answered + one) + (b.out - one + more) == b.answered + (b.out - one + one) + more;
  }

  /** A heap whose indexes are all different lists them strictly ascending. */
  lemma DistinctIsStrict(h: seq<MilestoneData>, bag: multiset<nat>)
    requires Sorted(h) && multiset(Indexes(h)) == bag && forall x :: bag[x] <= 1
    ensures Strict(h)
  {
    var idx := Indexes(h);
    forall i, j | 0 <= i < j < |h|
      ensures h[i].index < h[j].index
    {
      assert idx == idx[..i] + [idx[i]] + idx[i + 1..j] + [idx[j]] + idx[j + 1..];
      assert bag[idx[i]] <= 1;
    }
  }

  lemma BootReplyWaits(c: Config, s: State, b: Books, r: Reply, p: Past)
    requires Balanced(c, s, b, p) && s.highest == 0 && s.pending > 1 && Acceptable(s, b, r)
    ensures AcceptsReply(s)
    ensures Requests(s, HandleReply(c, s, r), []) && Balanced(c, HandleReply(c, s, r), Answered(b, r, []), p)
  {
    ArrivalKeepsBooting(c, s, r.data);
    PushAddsIndex(s.heap, r.data);
    assert s.sent.requested + [] == s.sent.requested;
    AnsweredConserves(s, HandleReply(c, s, r), b, r, []);
    assert |b.out - multiset{r.Index()}| == |b.out| - 1;
  }

  /** With the last reply of the bootstrap the heap holds exactly the first milestones. */
  lemma LastFirst(s: State, b: Books, r: Reply)
    requires Conserved(s, b) && BootPhase(s, b) && ProperFirsts(b) && s.pending == 1 && Acceptable(s, b, r) && s.highest == 0
    ensures var h := Push(s.heap, r.data);
            && b.out == multiset{r.Index()} && |b.firsts| == b.count
            && multiset(Indexes(h)) == b.firsts
            && Strict(h) && 1 <= h[0].index && h[|h| - 1].index <= LAST_GAP_END
  {
    var h := Push(s.heap, r.data);
    assert b.out == multiset{r.Index()} by {
      assert b.out == multiset{r.Index()} + (b.out - multiset{r.Index()});
      assert |b.out - multiset{r.Index()}| == 0;
    }
    PushAddsIndex(s.heap, r.data);
    PushKeepsOrder(s.heap, r.data);
    assert multiset([]) + b.firsts == b.firsts;
    DistinctIsStrict(h, b.firsts);
    assert Indexes(h)[0] in multiset(Indexes(h));
    assert Indexes(h)[|h| - 1] in multiset(Indexes(h));
  }

  lemma BootEndOrderly(c: Config, s: State, d: MilestoneData)
    requires c.parallelism > 0 && Booting(s) && s.pending == 1 && d.createdBy.Syncer?
    requires Strict(Push(s.heap, d)) && LastIndex(Push(s.heap, d)) <= LAST_GAP_END
    ensures AcceptsReply(s)
    ensures SyncerRequests.Orderly(HandleMilestoneData(c, s, d), s.syncData, SyncerRequests.Mark(0, 0))
  {
    var u := s.(pending := 0, heap := Push(s.heap, d));
    var v := SendFirst(c, u);
    LastArrival(c, s, d);
    var events := SendFirstSendsAll(c, u);
    assert Has(u.heap, v.highest);
    SyncerRequests.FreshSnapshot(v);
    SyncerRequests.AskedKeepsOrderly(c, v, v.syncData, SyncerRequests.Mark(0, 0));
    SyncerRequests.TriggerKeepsOrderly(c, CompleteOrFillGaps(c, v), v.syncData, SyncerRequests.Mark(0, 0));
  }

  lemma BootReplyEnds(c: Config, s: State, b: Books, r: Reply, p: Past) returns (news: seq<nat>, q: Past)
    requires Balanced(c, s, b, p) && s.highest == 0 && s.pending == 1 && Acceptable(s, b, r) && ProperFirsts(b)
    ensures AcceptsReply(s)
    ensures Requests(s, HandleReply(c, s, r), news) && Balanced(c, HandleReply(c, s, r), Answered(b, r, news), q)
  {
    LastFirst(s, b, r);
    var l: Log;
    news, l := ArrivalEndsBoot(c, s, r.data);
    q := Past(l, Push(s.heap, r.data));
    AnsweredConserves(s, HandleReply(c, s, r), b, r, news);
    BootEndOrderly(c, s, r.data);
    assert b.out - multiset{r.Index()} + multiset(news) == multiset(news);
  }

  lemma MainReply(c: Config, s: State, b: Books, r: Reply, p: Past) returns (news: seq<nat>, q: Past)
    requires Balanced(c, s, b, p) && s.highest != 0 && Acceptable(s, b, r)
    ensures AcceptsReply(s)
    ensures Requests(s, HandleReply(c, s, r), news) && Balanced(c, HandleReply(c, s, r), Answered(b, r, news), q)
  {
    var l: Log;
    news, l := ReplyKeepsMain(c, s, b.out, r, p.log);
    q := p.(log := l);
    SyncerRequests.ReplyKeepsOrderly(c, s, b.out, r, b.read, b.mark);
    SyncerFrames.ReplyKeepsFrontier(c, s, r);
    AnsweredConserves(s, HandleReply(c, s, r), b, r, news);
  }

  /** Main step at the Syncer: an outstanding reply is always accepted, and the books stay balanced. */
  lemma ReplyKeepsBalance(c: Config, s: State, b: Books, r: Reply, p: Past) returns (news: seq<nat>, q: Past)
    requires Balanced(c, s, b, p) && Acceptable(s, b, r) && ProperFirsts(b)
    ensures AcceptsReply(s)
    ensures Requests(s, HandleReply(c, s, r), news) && Balanced(c, HandleReply(c, s, r), Answered(b, r, news), q)
  {
    if s.highest != 0 {
      news, q := MainReply(c, s, b, r, p);
    } else {
      assert |b.out| > 0;
      if s.pending == 1 {
        news, q := BootReplyEnds(c, s, b, r, p);
      } else {
        BootReplyWaits(c, s, b, r, p);
        news, q := [], p;
      }
    }
  }

  // ------------------------------------------------------------------------------------------------------------
  // Asks at the Syncer
  // ------------------------------------------------------------------------------------------------------------

  ghost function Asked(c: Config, s: State, b: Books, ask: Ask, fetched: Option<Sync.Snapshot>, news: seq<nat>): Books {
    var more := b.(out := b.out + multiset(news), idle := b.idle && news == []);
    if SyncerRequests.Rereads(c, s, ask, fetched) then more.(read := fetched.value, mark := SyncerRequests.Now(s)) else more
  }

  lemma AskKeepsBalance(c: Config, s: State, b: Books, ask: Ask, fetched: Option<Sync.Snapshot>, p: Past)
    returns (news: seq<nat>, q: Past)
    requires Balanced(c, s, b, p) && (fetched.Some? ==> Sync.Tidy(fetched.value))
    ensures var t := HandleAsk(c, s, ask, fetched); Requests(s, t, news) && Balanced(c, t, Asked(c, s, b, ask, fetched, news), q)
  {
    if s.highest == 0 {
      AskKeepsBooting(c, s, ask, fetched);
      news, q := [], p;
      assert s.sent.requested + [] == s.sent.requested;
      assert Asked(c, s, b, ask, fetched, []) == b by { assert b.out + multiset([]) == b.out; }
    } else {
      news := AskKeepsMain(c, s, b.out, ask, fetched, p.log);
      q := p.(log := OnGap(HandleAsk(c, s, ask, fetched), p.log));
      SyncerRequests.AskKeepsOrderly(c, s, ask, fetched, b.read, b.mark);
      SyncerFrames.AskKeeps(c, s, ask, fetched);
      AskedConserves(c, s, HandleAsk(c, s, ask, fetched), b, ask, fetched, news);
    }
  }

  lemma AskedConserves(c: Config, s: State, t: State, b: Books, ask: Ask, fetched: Option<Sync.Snapshot>, news: seq<nat>)
    requires Conserved(s, b) && Requests(s, t, news)
    ensures Conserved(t, Asked(c, s, b, ask, fetched, news))
  {
    var requested, more := multiset(s.sent.requested), multiset(news);
    assert (requested + more) + b.firsts == (requested + b.firsts) + more;
    assert b.answered + (b.out + more) == (b.answered + b.out) + more;
  }

  // ------------------------------------------------------------------------------------------------------------
  // Every action, every run
  // ------------------------------------------------------------------------------------------------------------

  /** What the Syncer requested is in flight. */
  lemma RequestsGoOut(sys: System, t: State, news: seq<nat>)
    requires Requests(sys.syncer, t, news)
    ensures AtSyncer(sys, t) == sys.(syncer := t, toSol := sys.toSol + news)
    ensures Outstanding(AtSyncer(sys, t)) == Outstanding(sys) + multiset(news)
  {
    assert t.sent.requested[|sys.syncer.sent.requested|..] == news;
    assert multiset(sys.toSol + news) == multiset(sys.toSol) + multiset(news);
  }

  lemma ReplyTakenOut(sys: System, k: nat)
    requires k < |sys.toSyncer|
    ensures var one := multiset{sys.toSyncer[k].Index()};
            && Outstanding(sys.(toSyncer := Without(sys.toSyncer, k))) == Outstanding(sys) - one
            && sys.toSyncer[k].Index() in Outstanding(sys)
  {
    var rest := sys.(toSyncer := Without(sys.toSyncer, k));
    WithoutReply(sys.toSyncer, k);
    assert Outstanding(rest) + multiset{sys.toSyncer[k].Index()} == Outstanding(sys);
  }

  lemma ReplyKeepsOrigins(c: Config, sys: System, k: nat)
    requires k < |sys.toSyncer| && Origins(sys.sols, sys.toSyncer, sys.syncer)
    requires AcceptsReply(sys.syncer) && (sys.toSyncer[k].Unreachable? ==> sys.syncer.highest != 0)
    ensures Origins(sys.sols, Without(sys.toSyncer, k), HandleReply(c, sys.syncer, sys.toSyncer[k]))
  {
    SyncerFrames.ReplyHolds(c, sys.syncer, sys.toSyncer[k]);
  }

  lemma ReplyKeepsInv(tangle: Cones.Tangle, c: Config, sys: System, k: nat, p: Past) returns (q: Past)
    requires Inv(tangle, c, sys, p) && k < |sys.toSyncer|
    requires sys.toSyncer[k].Unreachable? ==> sys.syncer.highest != 0
    ensures AcceptsReply(sys.syncer)
    ensures var r := sys.toSyncer[k];
            var rest := sys.(toSyncer := Without(sys.toSyncer, k), answered := sys.answered + multiset{r.Index()});
            Inv(tangle, c, AtSyncer(rest, HandleReply(c, sys.syncer, r)), q)
  {
    var r := sys.toSyncer[k];
    var rest := sys.(toSyncer := Without(sys.toSyncer, k), answered := sys.answered + multiset{r.Index()});
    SolsHaveProperFirsts(tangle, sys);
    ReplyTakenOut(sys, k);
    var news: seq<nat>;
    news, q := ReplyKeepsBalance(c, sys.syncer, BooksOf(sys), r, p);
    var t := HandleReply(c, sys.syncer, r);
    RequestsGoOut(rest, t, news);
    ReplyKeepsOrigins(c, sys, k);
    assert BooksOf(AtSyncer(rest, t)) == Answered(BooksOf(sys), r, news);
  }

  lemma AskKeepsInv(tangle: Cones.Tangle, c: Config, sys: System, ask: Ask, fetched: Option<Sync.Snapshot>, p: Past)
    returns (q: Past)
    requires Inv(tangle, c, sys, p) && (fetched.Some? ==> Sync.Tidy(fetched.value))
    ensures Inv(tangle, c, AfterAsk(c, sys, ask, fetched), q)
  {
    var t := HandleAsk(c, sys.syncer, ask, fetched);
    var news: seq<nat>;
    news, q := AskKeepsBalance(c, sys.syncer, BooksOf(sys), ask, fetched, p);
    AskedBooks(c, sys, ask, fetched, news);
    AskedOrigins(c, sys, ask, fetched, news);
  }

  lemma AskedBooks(c: Config, sys: System, ask: Ask, fetched: Option<Sync.Snapshot>, news: seq<nat>)
    requires Requests(sys.syncer, HandleAsk(c, sys.syncer, ask, fetched), news)
    ensures BooksOf(AfterAsk(c, sys, ask, fetched)) == Asked(c, sys.syncer, BooksOf(sys), ask, fetched, news)
  {
    RequestsGoOut(sys, HandleAsk(c, sys.syncer, ask, fetched), news);
  }

  lemma AskedOrigins(c: Config, sys: System, ask: Ask, fetched: Option<Sync.Snapshot>, news: seq<nat>)
    requires Origins(sys.sols, sys.toSyncer, sys.syncer)
    requires Requests(sys.syncer, HandleAsk(c, sys.syncer, ask, fetched), news)
    ensures var t := AfterAsk(c, sys, ask, fetched);
            && t.sols == sys.sols && t.syncer == HandleAsk(c, sys.syncer, ask, fetched)
            && Origins(t.sols, t.toSyncer, t.syncer)
  {
    SyncerFrames.AskKeeps(c, sys.syncer, ask, fetched);
  }

  lemma InvIsWired(tangle: Cones.Tangle, sys: System)
    requires SoundSols(tangle, sys.sols)
    ensures Wired(sys)
  {
    forall i | 0 <= i < |sys.sols|
      ensures sys.sols[i].state.count == |sys.sols|
    {
      assert SoundSol(tangle, sys.sols[i], i, |sys.sols|);
    }
  }

  /** Whatever happens next, the Syncer can handle it, and the invariant stays. */
  lemma ActKeepsInv(tangle: Cones.Tangle, c: Config, sys: System, a: PipelineSpec.Action, p: Past) returns (q: Past)
    requires Inv(tangle, c, sys, p)
    ensures Wired(sys)
    ensures Act(tangle, c, sys, a).Some? && Inv(tangle, c, Act(tangle, c, sys, a).value, q)
  {
    InvIsWired(tangle, sys);
    q := p;
    if Enabled(tangle, sys, a) {
      match a
      case Deliver(i, e) => DeliverKeepsInv(tangle, c, sys, i, e, p);
      case DeliverRequest(k) => RequestKeepsInv(tangle, c, sys, k, p);
      case DeliverReply(k) => q := ReplyKeepsInv(tangle, c, sys, k, p);
      case AskSyncer(ask, fetched) => q := AskKeepsInv(tangle, c, sys, ask, fetched, p);
      case Forget(i, u, d) => ForgetKeepsInv(tangle, c, sys, i, u, d, p);
    }
  }

  /** The system at the start: nothing in flight, and `count` first milestones to come. */
  ghost function Begin(c: Config, snapshot: Sync.Snapshot, firstAsk: Option<Ask>, count: nat, gapStart: nat): System {
    System(Init(snapshot, firstAsk, count), seq(count, i requires 0 <= i => Fresh(i, count, gapStart, c.archiving)), [], [], multiset{},
           snapshot, SyncerRequests.Mark(0, 0))
  }

  lemma {:induction false} NoneInside(sols: seq<Trace>)
    requires forall i :: 0 <= i < |sols| ==> sols[i].state.entries == map[] && sols[i].state.first == None
    ensures Inside(sols) == multiset{} && Firsts(sols) == multiset{}
  {
    if sols != [] {
      NoneInside(sols[..|sols| - 1]);
      assert Awaited(sols[|sols| - 1].state) == {};
    }
  }

  lemma StartIsSound(tangle: Cones.Tangle, id: nat, count: nat, gapStart: nat, archiving: bool)
    requires id < count && gapStart >= 1
    ensures SoundSol(tangle, Fresh(id, count, gapStart, archiving), id, count)
  {
    RunKeepsGood(tangle, id, count, gapStart, archiving, []);
    assert Fresh(id, count, gapStart, archiving) == Run(Fresh(id, count, gapStart, archiving), []);
  }

  lemma BeginHasInv(tangle: Cones.Tangle, c: Config, snapshot: Sync.Snapshot, firstAsk: Option<Ask>, count: nat, gapStart: nat, p: Past)
    requires c.parallelism > 0 && Sync.Tidy(snapshot) && count > 0 && gapStart >= 1
    ensures Inv(tangle, c, Begin(c, snapshot, firstAsk, count, gapStart), p)
  {
    var sys := Begin(c, snapshot, firstAsk, count, gapStart);
    forall i | 0 <= i < count
      ensures SoundSol(tangle, sys.sols[i], i, count)
    {
      StartIsSound(tangle, i, count, gapStart, c.archiving);
    }
    NoneInside(sys.sols);
    assert ReplyIndexes([]) == [] && Indexes([]) == [];
    assert forall d :: !SyncerFrames.Held(sys.syncer, d);
  }

  /** The system after a list of actions, unless the Syncer could not handle one of them. */
  ghost function RunOf(tangle: Cones.Tangle, c: Config, sys: System, actions: seq<PipelineSpec.Action>): Option<System>
    decreases |actions|
  {
    if actions == [] then Some(sys)
    else if !Wired(sys) then None
    else
      match Act(tangle, c, sys, actions[0])
      case None => None
      case Some(t) => RunOf(tangle, c, t, actions[1..])
  }

  lemma {:induction false} RunKeepsInv(tangle: Cones.Tangle, c: Config, sys: System, actions: seq<PipelineSpec.Action>, p: Past) returns (q: Past)
    requires Inv(tangle, c, sys, p)
    ensures RunOf(tangle, c, sys, actions).Some? && Inv(tangle, c, RunOf(tangle, c, sys, actions).value, q)
    decreases |actions|
  {
    q := p;
    if actions != [] {
      q := ActKeepsInv(tangle, c, sys, actions[0], p);
      RunGoesOn(tangle, c, sys, actions);
      q := RunKeepsInv(tangle, c, Act(tangle, c, sys, actions[0]).value, actions[1..], q);
    }
  }

  lemma RunGoesOn(tangle: Cones.Tangle, c: Config, sys: System, actions: seq<PipelineSpec.Action>)
    requires actions != [] && Wired(sys) && Act(tangle, c, sys, actions[0]).Some?
    ensures RunOf(tangle, c, sys, actions) == RunOf(tangle, c, Act(tangle, c, sys, actions[0]).value, actions[1..])
  {
  }

  lemma BalancedCounts(c: Config, s: State, b: Books, p: Past)
    requires Balanced(c, s, b, p)
    ensures s.pending + |b.firsts| == b.count + |b.out|
    ensures Conserved(s, b)
    ensures s.highest != 0 ==> s.pending <= c.parallelism
  {
  }

  // ------------------------------------------------------------------------------------------------------------
  // Main results
  // ------------------------------------------------------------------------------------------------------------

  /** After any run the Syncer's count of outstanding requests is exact: requests in flight, requests inside a
      Solidifier, replies in flight, and Solidifiers still to observe their first milestone; and each request and each
      first milestone was answered once or is still outstanding. No run makes the Syncer fail. */
  lemma PendingIsExact(tangle: Cones.Tangle, c: Config, snapshot: Sync.Snapshot, firstAsk: Option<Ask>, count: nat, gapStart: nat,
                       actions: seq<PipelineSpec.Action>)
    requires c.parallelism > 0 && Sync.Tidy(snapshot) && count > 0 && gapStart >= 1
    ensures var end := RunOf(tangle, c, Begin(c, snapshot, firstAsk, count, gapStart), actions);
            && end.Some?
            && var sys := end.value;
               && sys.syncer.pending == (count - |Firsts(sys.sols)|) + |Outstanding(sys)|
               && multiset(sys.syncer.sent.requested) + Firsts(sys.sols) == sys.answered + Outstanding(sys)
               && (sys.syncer.highest != 0 ==> sys.syncer.pending <= c.parallelism)
  {
    var p := Past(Log([], [], [], [], 0), []);
    BeginHasInv(tangle, c, snapshot, firstAsk, count, gapStart, p);
    var q := RunKeepsInv(tangle, c, Begin(c, snapshot, firstAsk, count, gapStart), actions, p);
    var sys := RunOf(tangle, c, Begin(c, snapshot, firstAsk, count, gapStart), actions).value;
    BalancedCounts(c, sys.syncer, BooksOf(sys), q);
    CountStays(tangle, c, Begin(c, snapshot, firstAsk, count, gapStart), actions);
  }

  lemma {:induction false} CountStays(tangle: Cones.Tangle, c: Config, sys: System, actions: seq<PipelineSpec.Action>)
    ensures var end := RunOf(tangle, c, sys, actions); end.Some? ==> |end.value.sols| == |sys.sols|
    decreases |actions|
  {
    if actions != [] && Wired(sys) && Act(tangle, c, sys, actions[0]).Some? {
      CountStays(tangle, c, Act(tangle, c, sys, actions[0]).value, actions[1..]);
    }
  }

  /** The finished gaps of the log are the gaps announced, all but the one in progress, which comes last; each has exactly
      its events, and ended early only because of an unreachable milestone in it. Its file was closed if anything of it was
      handed over, unless that of the gap before it, with the same start, had just been closed. */
  ghost predicate GapsInOrder(s: State, l: Log) {
    var taken, n := s.sent.taken, |l.runs|;
    && |l.segments| == n == |taken| - (if s.active.Some? then 1 else 0)
    && (s.active.Some? ==> taken[n] == Range(s.gap.start, s.gap.end) && DataOf(l.current, taken[n].start, s.gap.next, taken[n].end))
    && forall i :: 0 <= i < n ==>
         && EventsOf(l.segments[i], l.runs[i]) && l.runs[i].start == taken[i].start && l.runs[i].end == taken[i].end
         && taken[i].start <= l.runs[i].next <= taken[i].end
         && (l.runs[i].next < taken[i].end ==> AlertIn(s, taken[i].start, taken[i].end))
         && (l.runs[i].closed <==> taken[i].start < l.runs[i].next && taken[i].start != LastClosed(l.runs[..i]))
  }

  lemma LogsAreGaps(c: Config, s: State, l: Log)
    requires Logs(c, s, l)
    ensures GapsInOrder(s, l)
  {
    forall i | 0 <= i < |l.runs|
      ensures RunOk(s, l.runs[i]) && s.sent.taken[i] == Range(l.runs[i].start, l.runs[i].end)
    {
    }
  }

  /** After any run the Archiver has received the first milestones in order, with a close at every hole and at the end,
      and then, for every gap the Syncer announced and in this order, a prefix of the gap, each index once and in
      order: the whole of a finished gap unless one of its milestones was reported unreachable. Of the gap in progress it
      has received the data up to `next`. All milestone data are whole cones. */
  lemma ArchiverGetsGapsInOrder(tangle: Cones.Tangle, c: Config, snapshot: Sync.Snapshot, firstAsk: Option<Ask>, count: nat,
                                gapStart: nat, actions: seq<PipelineSpec.Action>) returns (sys: System, p: Past)
    requires c.parallelism > 0 && Sync.Tidy(snapshot) && count > 0 && gapStart >= 1
    ensures RunOf(tangle, c, Begin(c, snapshot, firstAsk, count, gapStart), actions) == Some(sys)
    ensures sys.syncer.highest == 0 ==> sys.syncer.sent.archived == [] && sys.syncer.sent.requested == []
    ensures sys.syncer.highest != 0 ==>
      && Logs(c, sys.syncer, p.log) && GapsInOrder(sys.syncer, p.log)
      && p.firsts != [] && Strict(p.firsts) && multiset(Indexes(p.firsts)) == Firsts(sys.sols) && |p.firsts| == |sys.sols|
      && HandedOver(p.firsts, p.log.boot, sys.syncer.highest, sys.syncer.sent.frontier)
    ensures forall d :: SyncerFrames.Held(sys.syncer, d) ==>
      Origin(sys.sols, d) && Cones.Whole(tangle, d, SolidifierRuns.ClosesIn(sys.sols[d.index % |sys.sols|].seen))
  {
    p := Past(Log([], [], [], [], 0), []);
    BeginHasInv(tangle, c, snapshot, firstAsk, count, gapStart, p);
    p := RunKeepsInv(tangle, c, Begin(c, snapshot, firstAsk, count, gapStart), actions, p);
    sys := RunOf(tangle, c, Begin(c, snapshot, firstAsk, count, gapStart), actions).value;
    assert |multiset(Indexes(p.firsts))| == |p.firsts|;
    if sys.syncer.highest != 0 { LogsAreGaps(c, sys.syncer, p.log); }
    forall d | SyncerFrames.Held(sys.syncer, d)
      ensures Origin(sys.sols, d) && Cones.Whole(tangle, d, SolidifierRuns.ClosesIn(sys.sols[d.index % |sys.sols|].seen))
    {
      SentIsWhole(tangle, sys.sols, d);
    }
  }

  /** After any run, since the Syncer last read the sync table: it requested each index at most once, only indexes that were
      missing or unlogged then, and it will not request them again; those of the gap in progress it requested in ascending
      order without a hole; and the gaps it announced are disjoint and consist of such indexes. */
  lemma RequestedAtMostOnce(tangle: Cones.Tangle, c: Config, snapshot: Sync.Snapshot, firstAsk: Option<Ask>, count: nat,
                            gapStart: nat, actions: seq<PipelineSpec.Action>) returns (sys: System)
    requires c.parallelism > 0 && Sync.Tidy(snapshot) && count > 0 && gapStart >= 1
    ensures RunOf(tangle, c, Begin(c, snapshot, firstAsk, count, gapStart), actions) == Some(sys)
    ensures sys.mark.asked <= |sys.syncer.sent.requested| && sys.mark.took <= |sys.syncer.sent.taken|
    ensures var requested := sys.syncer.sent.requested[sys.mark.asked..];
            forall x: nat :: multiset(requested)[x] <= 1
                             && (x in requested ==> Sync.Open(sys.read, x) && !Sync.Open(sys.syncer.syncData, x))
    ensures var taken := sys.syncer.sent.taken[sys.mark.took..];
            forall x: nat :: SyncerRequests.In(taken, x) <= 1
                             && (SyncerRequests.In(taken, x) == 1 ==> Sync.Open(sys.read, x) && !Sync.Open(sys.syncer.syncData, x))
    ensures SyncerRequests.InGapOrder(sys.syncer)
  {
    var p := Past(Log([], [], [], [], 0), []);
    BeginHasInv(tangle, c, snapshot, firstAsk, count, gapStart, p);
    p := RunKeepsInv(tangle, c, Begin(c, snapshot, firstAsk, count, gapStart), actions, p);
    sys := RunOf(tangle, c, Begin(c, snapshot, firstAsk, count, gapStart), actions).value;
    if sys.syncer.highest != 0 {
      forall x: nat
        ensures multiset(sys.syncer.sent.requested[sys.mark.asked..])[x] <= 1
        ensures x in sys.syncer.sent.requested[sys.mark.asked..] ==> Sync.Open(sys.read, x) && !Sync.Open(sys.syncer.syncData, x)
        ensures SyncerRequests.In(sys.syncer.sent.taken[sys.mark.took..], x) <= 1
        ensures SyncerRequests.In(sys.syncer.sent.taken[sys.mark.took..], x) == 1 ==>
                  Sync.Open(sys.read, x) && !Sync.Open(sys.syncer.syncData, x)
      {
        SyncerRequests.RequestedOnce(sys.syncer, sys.read, sys.mark, x);
      }
    }
  }

  lemma SentIsWhole(tangle: Cones.Tangle, sols: seq<Trace>, d: MilestoneData)
    requires SoundSols(tangle, sols) && Origin(sols, d)
    ensures Cones.Whole(tangle, d, SolidifierRuns.ClosesIn(sols[d.index % |sols|].seen))
  {
    var i := d.index % |sols|;
    assert SoundSol(tangle, sols[i], i, |sols|);
    var k :| 0 <= k < |sols[i].sent| && sols[i].sent[k] == So.ToSyncer(Collected(d));
    assert Cones.WholeOut(tangle, sols[i].sent[k], SolidifierRuns.ClosesIn(sols[i].seen));
    assert Cones.Delivers(sols[i].sent[k], d);
  }
}
