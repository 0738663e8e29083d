/** The Syncer and its Solidifiers joined by their channels: where every request of the Syncer is. */
module PipelineSpec {
  import opened Types
  import Sync = SyncTable
  import Sy = SyncerSpec
  import SyncerRequests
  import So = SolidifierSpec
  import opened SolidifierProofs
  import opened SolidifierRuns
  import opened Tokens

  /** The actors, the solidify requests and the replies in flight, and the indexes answered so far; what the sync table
      held when the Syncer last read it, and how many requests it had sent and gaps it had announced by then. Channels are
      bags: any request and any reply may be delivered next. */
  datatype System = System(
    syncer: Sy.State,
    sols: seq<Trace>,
    toSol: seq<nat>,
    toSyncer: seq<Reply>,
    answered: multiset<nat>,
    read: Sync.Snapshot,
    mark: SyncerRequests.Mark)

  datatype Action =
    | Deliver(at: nat, event: So.Event)
    | DeliverRequest(k: nat)
    | DeliverReply(k: nat)
    | AskSyncer(ask: Sy.Ask, fetched: Option<Sync.Snapshot>)
    | Forget(at: nat, unreachable: set<nat>, inDatabase: set<nat>)

  function Without<T>(s: seq<T>, k: nat): seq<T>
    requires k < |s|
  {
    s[..k] + s[k + 1..]
  }

  /** Events reach the Solidifier of their milestone, milestone indexes stay below the end of the last gap, and no
      milestone is reported unreachable before the bootstrap is over. */
  ghost predicate Enabled(tangle: SolidifierCones.Tangle, sys: System, a: Action) {
    match a
    case Deliver(i, e) =>
      && i < |sys.sols| && !e.Solidify?
      && Subject(e) % |sys.sols| == i && Subject(e) <= Sy.LAST_GAP_END
      && SolidifierCones.GenuineEvent(tangle, e)
    case DeliverRequest(k) => k < |sys.toSol|
    case DeliverReply(k) => k < |sys.toSyncer| && (sys.toSyncer[k].Unreachable? ==> sys.syncer.highest != 0)
    case AskSyncer(_, fetched) => fetched.Some? ==> Sync.Tidy(fetched.value)
    case Forget(i, _, _) => i < |sys.sols|
  }

  /** One event at Solidifier `i`; its replies go to the Syncer. */
  ghost function AtSolidifier(sys: System, i: nat, e: So.Event): System
    requires i < |sys.sols| && sys.sols[i].state.count > 0
  {
    var outs := So.Step(sys.sols[i].state, e).1;
    sys.(sols := sys.sols[i := Next(sys.sols[i], Handle(e))], toSyncer := sys.toSyncer + Replies(outs))
  }

  /** The Syncer's new state; what it requested on the way is in flight. */
  ghost function AtSyncer(sys: System, t: Sy.State): System {
    var before := |sys.syncer.sent.requested|;
    sys.(syncer := t,
         toSol := sys.toSol + if before <= |t.sent.requested| then t.sent.requested[before..] else [])
  }

  /** An ask; it may make the Syncer read the sync table again. */
  ghost function AfterAsk(c: Sy.Config, sys: System, ask: Sy.Ask, fetched: Option<Sync.Snapshot>): System {
    var t := AtSyncer(sys, Sy.HandleAsk(c, sys.syncer, ask, fetched));
    if SyncerRequests.Rereads(c, sys.syncer, ask, fetched)
    then t.(read := fetched.value, mark := SyncerRequests.Now(sys.syncer))
    else t
  }

  ghost predicate Wired(sys: System) {
    |sys.sols| > 0 && forall i :: 0 <= i < |sys.sols| ==> sys.sols[i].state.count == |sys.sols|
  }

  /** The system after an action; actions that are not enabled do nothing. None when the Syncer cannot handle a reply:
      its count of outstanding requests would underflow, or it has no active gap. */
  ghost function Act(tangle: SolidifierCones.Tangle, c: Sy.Config, sys: System, a: Action): Option<System>
    requires Wired(sys)
  {
    if !Enabled(tangle, sys, a) then Some(sys)
    else
      match a
      case Deliver(i, e) => Some(AtSolidifier(sys, i, e))
      case DeliverRequest(k) =>
        var x := sys.toSol[k];
        Some(AtSolidifier(sys.(toSol := Without(sys.toSol, k)), x % |sys.sols|, So.Solidify(x)))
      case DeliverReply(k) =>
        var r := sys.toSyncer[k];
        if !Sy.AcceptsReply(sys.syncer) then None
        else Some(AtSyncer(sys.(toSyncer := Without(sys.toSyncer, k), answered := sys.answered + multiset{r.Index()}),
                           Sy.HandleReply(c, sys.syncer, r)))
      case AskSyncer(ask, fetched) => Some(AfterAsk(c, sys, ask, fetched))
      case Forget(i, u, d) => Some(sys.(sols := sys.sols[i := Next(sys.sols[i], Evict(u, d))]))
  }

  // ------------------------------------------------------------------------------------------------------------
  // Where the requests are
  // ------------------------------------------------------------------------------------------------------------

  ghost function Inside(sols: seq<Trace>): multiset<nat> {
    if sols == [] then multiset{} else Inside(sols[..|sols| - 1]) + multiset(Awaited(sols[|sols| - 1].state))
  }

  ghost function FirstOf(t: Trace): multiset<nat> {
    match t.state.first
    case None => multiset{}
    case Some(f) => multiset{f}
  }

  /** The first milestones the Solidifiers observed. */
  ghost function Firsts(sols: seq<Trace>): multiset<nat> {
    if sols == [] then multiset{} else Firsts(sols[..|sols| - 1]) + FirstOf(sols[|sols| - 1])
  }

  /** Requests in flight, inside a Solidifier, or answered by a reply in flight. */
  ghost function Outstanding(sys: System): multiset<nat> {
    Inside(sys.sols) + multiset(sys.toSol) + multiset(ReplyIndexes(sys.toSyncer))
  }

  lemma AddBoth(a: multiset<nat>, b: multiset<nat>, c: multiset<nat>, d: multiset<nat>, x: multiset<nat>)
    requires a + b == c + d
    ensures (a + x) + b == (c + x) + d
  {
    assert (a + x) + b == (a + b) + x;
    assert (c + x) + d == (c + d) + x;
  }

  lemma Swap(a: multiset<nat>, x: multiset<nat>, y: multiset<nat>)
    ensures (a + x) + y == (a + y) + x
  {
  }

  lemma {:induction false} InsideAt(sols: seq<Trace>, i: nat, t: Trace)
    requires i < |sols|
    ensures Inside(sols[i := t]) + multiset(Awaited(sols[i].state)) == Inside(sols) + multiset(Awaited(t.state))
  {
    var n := |sols| - 1;
    var short, last := sols[..n], multiset(Awaited(sols[n].state));
    if i == n {
      assert sols[i := t][..n] == short;
      assert sols[i := t][n] == t;
      Swap(Inside(short), multiset(Awaited(t.state)), last);
    } else {
      InsideAt(short, i, t);
      assert sols[i := t][..n] == short[i := t];
      AddBoth(Inside(short[i := t]), multiset(Awaited(sols[i].state)), Inside(short), multiset(Awaited(t.state)), last);
    }
  }

  lemma FirstsLast(sols: seq<Trace>, t: Trace)
    ensures Firsts(sols + [t]) == Firsts(sols) + FirstOf(t)
  {
    assert (sols + [t])[..|sols|] == sols;
  }

  lemma {:induction false} FirstsAt(sols: seq<Trace>, i: nat, t: Trace)
    requires i < |sols|
    ensures Firsts(sols[i := t]) + FirstOf(sols[i]) == Firsts(sols) + FirstOf(t)
  {
    var n := |sols| - 1;
    var short, last := sols[..n], sols[n];
    assert sols == short + [last];
    FirstsLast(short, last);
    if i == n {
      assert sols[i := t] == short + [t];
      FirstsLast(short, t);
      Swap(Firsts(short), FirstOf(t), FirstOf(last));
    } else {
      assert sols[i := t] == short[i := t] + [last];
      FirstsLast(short[i := t], last);
      FirstsAt(short, i, t);
      AddBoth(Firsts(short[i := t]), FirstOf(sols[i]), Firsts(short), FirstOf(t), FirstOf(last));
    }
  }

  lemma WithoutOne<T>(s: seq<T>, k: nat)
    requires k < |s|
    ensures multiset(Without(s, k)) + multiset{s[k]} == multiset(s)
  {
    assert s == s[..k] + [s[k]] + s[k + 1..];
  }

  lemma WithoutReply(rs: seq<Reply>, k: nat)
    requires k < |rs|
    ensures multiset(ReplyIndexes(Without(rs, k))) + multiset{rs[k].Index()} == multiset(ReplyIndexes(rs))
  {
    WithoutOne(ReplyIndexes(rs), k);
    assert ReplyIndexes(Without(rs, k)) == Without(ReplyIndexes(rs), k);
  }

  lemma MoreReplies(a: seq<Reply>, b: seq<Reply>)
    ensures multiset(ReplyIndexes(a + b)) == multiset(ReplyIndexes(a)) + multiset(ReplyIndexes(b))
  {
    assert ReplyIndexes(a + b) == ReplyIndexes(a) + ReplyIndexes(b);
  }

  /** `x` is the first milestone of the Solidifier of its residue class. */
  ghost predicate IsFirst(sols: seq<Trace>, count: nat, x: nat)
    requires count > 0
  {
    x % count < |sols| && sols[x % count].state.first == Some(x)
  }

  ghost predicate InClass(sols: seq<Trace>, count: nat) {
    && count > 0
    && forall i :: 0 <= i < |sols| ==>
         sols[i].state.first.Some? ==> sols[i].state.first.value % count == i
  }

  /** First milestones are distinct: each belongs to another residue class. */
  lemma {:induction false} FirstsDistinct(sols: seq<Trace>, count: nat, x: nat)
    requires InClass(sols, count)
    ensures Firsts(sols)[x] == if IsFirst(sols, count, x) then 1 else 0
  {
    if sols != [] {
      FirstsDistinct(sols[..|sols| - 1], count, x);
    }
  }

  lemma {:induction false} FirstsAreMany(sols: seq<Trace>)
    ensures |Firsts(sols)| <= |sols|
    ensures |Firsts(sols)| == |sols| ==> forall i :: 0 <= i < |sols| ==> sols[i].state.first.Some?
  {
    if sols != [] {
      FirstsAreMany(sols[..|sols| - 1]);
      assert forall i :: 0 <= i < |sols| - 1 ==> sols[..|sols| - 1][i] == sols[i];
    }
  }
}
