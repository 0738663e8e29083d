/** The Collectors' count of unanswered requests of each Requester is exact. */
module Loads {
  import opened Types
  import So = SolidifierSpec
  import opened SolidifierProofs
  import opened CollectorSpec
  import opened AskNet

  /** The item is a request to, or an answer of, Requester `r` of Collector `c`. */
  function Burdens(item: Item, c: nat, r: nat): nat {
    if (item.AtRequester? || item.Answer?) && item.collector == c && item.requester == r then 1 else 0
  }

  /** The requests of Requester `r` whose answers Collector `c` has not received. */
  ghost function Load(items: seq<Item>, c: nat, r: nat): nat {
    if items == [] then 0 else Burdens(items[0], c, r) + Load(items[1..], c, r)
  }

  ghost function RequestsTo(outs: seq<Out>, r: nat): nat {
    if outs == [] then 0 else (if outs[0].Request? && outs[0].requester == r then 1 else 0) + RequestsTo(outs[1..], r)
  }

  lemma {:induction false} LoadConcat(a: seq<Item>, b: seq<Item>, c: nat, r: nat)
    ensures Load(a + b, c, r) == Load(a, c, r) + Load(b, c, r)
    decreases |a|
  {
    if a == [] {
      assert a + b == b;
    } else {
      LoadConcat(a[1..], b, c, r);
      assert (a + b)[1..] == a[1..] + b;
    }
  }

  lemma {:induction false} RequestsConcat(a: seq<Out>, b: seq<Out>, r: nat)
    ensures RequestsTo(a + b, r) == RequestsTo(a, r) + RequestsTo(b, r)
    decreases |a|
  {
    if a == [] {
      assert a + b == b;
    } else {
      RequestsConcat(a[1..], b, r);
      assert (a + b)[1..] == a[1..] + b;
    }
  }

  lemma LoadWithout(items: seq<Item>, k: nat, c: nat, r: nat)
    requires k < |items|
    ensures Load(items, c, r) == Load(Without(items, k), c, r) + Burdens(items[k], c, r)
  {
    assert items == items[..k] + ([items[k]] + items[k + 1..]);
    LoadConcat(items[..k], [items[k]] + items[k + 1..], c, r);
    LoadConcat([items[k]], items[k + 1..], c, r);
    LoadConcat(items[..k], items[k + 1..], c, r);
    assert [items[k]][1..] == [];
  }

  lemma {:induction false} ColItemsLoad(outs: seq<Out>, c: nat, d: nat, r: nat)
    ensures Load(ColItems(outs, c), d, r) == if d == c then RequestsTo(outs, r) else 0
    decreases |outs|
  {
    if outs != [] {
      ColItemsLoad(outs[1..], c, d, r);
      LoadConcat(ColItem(outs[0], c), ColItems(outs[1..], c), d, r);
      var item := ColItem(outs[0], c);
      assert item == [] || (|item| == 1 && item[1..] == []);
    }
  }

  lemma {:induction false} SolItemsLoad(outs: seq<So.Out>, n: nat, c: nat, r: nat)
    requires n > 0
    ensures Load(SolItems(outs, n), c, r) == 0
    decreases |outs|
  {
    if outs != [] {
      SolItemsLoad(outs[1..], n, c, r);
      LoadConcat(SolItem(outs[0], n), SolItems(outs[1..], n), c, r);
      var item := SolItem(outs[0], n);
      assert item == [] || (|item| == 1 && item[1..] == []);
    }
  }

  // ------------------------------------------------------------------------------------------------------------
  // A Collector's step
  // ------------------------------------------------------------------------------------------------------------

  ghost predicate DistinctIds(hs: seq<Handle>) {
    forall i, j :: 0 <= i < j < |hs| ==> hs[i].id != hs[j].id
  }

  /** The counts move by the requests sent, and by one for an answer received. */
  ghost predicate Moves(before: seq<Handle>, after: seq<Handle>, outs: seq<Out>, answered: Option<nat>) {
    && |after| == |before|
    && forall i :: 0 <= i < |before| ==>
         && after[i].id == before[i].id
         && after[i].processed == before[i].processed + RequestsTo(outs, before[i].id) - (if answered == Some(before[i].id) then 1 else 0)
  }

  lemma AskMoves(hs: seq<Handle>, target: Target, index: nat)
    requires DistinctIds(hs)
    ensures var (now, outs) := Ask(hs, target, index); Moves(hs, now, outs, None)
  {
    var (now, outs) := Ask(hs, target, index);
    if hs != [] {
      assert outs[1..] == [];
    }
  }

  lemma {:induction false} ReleaseMoves(hs: seq<Handle>, ps: seq<Parked>, below: nat)
    requires DistinctIds(hs)
    ensures var (end, _, outs) := Release(hs, ps, below); Moves(hs, end, outs, None)
    decreases |ps|
  {
    if ps != [] {
      if ps[0].index < below {
        var (now, first) := Ask(hs, TheMessage(ps[0].id), ps[0].index);
        AskMoves(hs, TheMessage(ps[0].id), ps[0].index);
        ReleaseMoves(now, ps[1..], below);
        var (_, _, rest) := Release(now, ps[1..], below);
        forall i | 0 <= i < |hs|
          ensures RequestsTo(first + rest, hs[i].id) == RequestsTo(first, hs[i].id) + RequestsTo(rest, hs[i].id)
        {
          RequestsConcat(first, rest, hs[i].id);
        }
      } else {
        ReleaseMoves(hs, ps[1..], below);
      }
    }
  }

  lemma {:induction false} NoRequests(outs: seq<Out>, r: nat)
    requires forall i :: 0 <= i < |outs| ==> !outs[i].Request?
    ensures RequestsTo(outs, r) == 0
    decreases |outs|
  {
    if outs != [] {
      NoRequests(outs[1..], r);
    }
  }

  lemma ReferenceMoves(s: State, id: MessageId, ref: nat)
    requires s.count > 0 && DistinctIds(s.requesters)
    ensures var (t, outs) := Reference(s, id, ref); Moves(s.requesters, t.requesters, outs, None)
  {
    var pushed, settled := Pushed(s, id, ref), Settle(s, Find(s.parked, id), id, ref);
    var (_, _, released) := Release(s.requesters, Remove(s.parked, id), ref);
    ReleaseMoves(s.requesters, Remove(s.parked, id), ref);
    forall i | 0 <= i < |s.requesters|
      ensures RequestsTo(pushed + settled + released + Written(s, id, ref), s.requesters[i].id) == RequestsTo(released, s.requesters[i].id)
    {
      var r := s.requesters[i].id;
      NoRequests(pushed + settled, r);
      NoRequests(Written(s, id, ref), r);
      RequestsConcat(pushed + settled, released, r);
      RequestsConcat(pushed + settled + released, Written(s, id, ref), r);
    }
  }

  function AnswerOf(e: Event): Option<nat> {
    if e.Fetched? then Some(e.requester) else None
  }

  /** Only requests and answers move the counts. */
  lemma QuietMoves(hs: seq<Handle>, outs: seq<Out>)
    requires forall i :: 0 <= i < |outs| ==> !outs[i].Request?
    ensures Moves(hs, hs, outs, None)
  {
    forall i | 0 <= i < |hs|
      ensures RequestsTo(outs, hs[i].id) == 0
    {
      NoRequests(outs, hs[i].id);
    }
  }

  lemma AskMessageMoves(s: State, solidifier: nat, index: nat, id: MessageId, createdBy: CreatedBy)
    requires s.count > 0 && DistinctIds(s.requesters)
    ensures var (t, outs) := HandleAsk(s, solidifier, index, id, createdBy); Moves(s.requesters, t.requesters, outs, None)
  {
    if id in s.messages && (id in s.refs || (s.est != 0 && index >= s.est - 1)) {
      QuietMoves(s.requesters, HandleAsk(s, solidifier, index, id, createdBy).1);
    } else {
      AskMoves(s.requesters, TheMessage(id), index);
    }
  }

  lemma StepMoves(s: State, e: Event)
    requires s.count > 0 && DistinctIds(s.requesters)
    ensures var (t, outs) := Step(s, e); Moves(s.requesters, t.requesters, outs, AnswerOf(e))
  {
    match e
    case Fetched(r, index, result) =>
      forall i | 0 <= i < |s.requesters|
        ensures RequestsTo(Step(s, e).1, s.requesters[i].id) == 0
      {
        NoRequests(Step(s, e).1, s.requesters[i].id);
      }
    case Seen(_, _) => QuietMoves(s.requesters, Step(s, e).1);
    case AskMilestone(index) => AskMoves(s.requesters, TheMilestone, index);
    case AskMessage(i, index, id, createdBy) =>
      AskMessageMoves(s, i, index, id, createdBy);
    case Referenced(metadata) =>
      QuietMoves(s.requesters, []);
      if metadata.refMs.Some? && metadata.id !in s.refs {
        var ref := metadata.refMs.value;
        var t := s.(ref := ref, est := if s.est < ref + 1 then ref + 1 else s.est, refs := s.refs[metadata.id := ref]);
        ReferenceMoves(t, metadata.id, ref);
      }
  }

  // ------------------------------------------------------------------------------------------------------------
  // The network
  // ------------------------------------------------------------------------------------------------------------

  ghost predicate Exact(hs: seq<Handle>, items: seq<Item>, c: nat) {
    DistinctIds(hs) && forall i :: 0 <= i < |hs| ==> hs[i].processed == Load(items, c, hs[i].id)
  }

  ghost predicate Accounts(net: Net) {
    forall c :: 0 <= c < |net.cols| ==> Exact(net.cols[c].requesters, net.items, c)
  }

  lemma SameLoad(cols: seq<State>, items: seq<Item>, more: seq<Item>)
    requires forall c :: 0 <= c < |cols| ==> Exact(cols[c].requesters, items, c)
    requires forall c, r :: Load(more, c, r) == Load(items, c, r)
    ensures forall c :: 0 <= c < |cols| ==> Exact(cols[c].requesters, more, c)
  {
    forall c | 0 <= c < |cols|
      ensures Exact(cols[c].requesters, more, c)
    {
      assert Exact(cols[c].requesters, items, c);
    }
  }

  lemma SolStepAccounts(net: Net, i: nat, e: So.Event, rest: seq<Item>)
    requires Wired(net) && Accounts(net) && i < |net.sols|
    requires forall c, r :: Load(rest, c, r) == Load(net.items, c, r)
    ensures Accounts(SolStep(net, i, e, rest))
  {
    var u, n := SolStep(net, i, e, rest), |net.sols|;
    var more := SolItems(So.Step(net.sols[i], e).1, n);
    forall c, r
      ensures Load(u.items, c, r) == Load(net.items, c, r)
    {
      LoadConcat(rest, more, c, r);
      SolItemsLoad(So.Step(net.sols[i], e).1, n, c, r);
    }
    SameLoad(net.cols, net.items, u.items);
  }

  function Taken(c: nat, e: Event, d: nat, r: nat): nat {
    if d == c && AnswerOf(e) == Some(r) then 1 else 0
  }

  /** The load that remains when the event's answer, if it is one, is taken out of the channel. */
  ghost predicate TakesAnswer(items: seq<Item>, rest: seq<Item>, c: nat, e: Event) {
    forall d, r :: Load(items, d, r) == Load(rest, d, r) + Taken(c, e, d, r)
  }

  lemma ColStepAccounts(net: Net, c: nat, e: Event, rest: seq<Item>)
    requires Wired(net) && Accounts(net) && c < |net.cols| && TakesAnswer(net.items, rest, c, e)
    ensures Accounts(ColStep(net, c, e, rest))
  {
    var u, outs := ColStep(net, c, e, rest), Step(net.cols[c], e).1;
    forall d | 0 <= d < |u.cols|
      ensures Exact(u.cols[d].requesters, u.items, d)
    {
      var hs, was := u.cols[d].requesters, net.cols[d].requesters;
      assert Exact(was, net.items, d);
      if d == c { StepMoves(net.cols[c], e); }
      forall i | 0 <= i < |hs|
        ensures hs[i].processed == Load(u.items, d, hs[i].id)
      {
        LoadConcat(rest, ColItems(outs, c), d, was[i].id);
        ColItemsLoad(outs, c, d, was[i].id);
      }
    }
  }

  lemma DeliverAccounts(net: Net, k: nat)
    requires Healthy(net) && Accounts(net) && k < |net.items|
    ensures Accounts(Delivered(net, k))
  {
    var rest, item := Without(net.items, k), net.items[k];
    forall c, r
      ensures Load(net.items, c, r) == Load(rest, c, r) + Burdens(item, c, r)
    {
      LoadWithout(net.items, k, c, r);
    }
    match item
    case ToCollector(c, e) =>
      assert Routed(item, |net.sols|);
      ColStepAccounts(net, c, e, rest);
    case Answer(c, r, index, result) => if c < |net.cols| { ColStepAccounts(net, c, Fetched(r, index, result), rest); }
    case ToSol(i, e) => if i < |net.sols| { SolStepAccounts(net, i, e, rest); }
    case AtRequester(_, _, _, _) =>
  }

  lemma FetchAccounts(net: Net, k: nat, result: Option<FullMessage>)
    requires Wired(net) && Accounts(net) && k < |net.items| && net.items[k].AtRequester?
    ensures Accounts(Act(net, Fetch(k, result)))
  {
    var r, u := net.items[k], Act(net, Fetch(k, result));
    var answer := Answer(r.collector, r.requester, r.index, result);
    forall c, q
      ensures Load(Without(net.items, k) + [answer], c, q) == Load(net.items, c, q)
    {
      LoadWithout(net.items, k, c, q);
      LoadConcat(Without(net.items, k), [answer], c, q);
      assert [answer][1..] == [];
    }
    SameLoad(net.cols, net.items, Without(net.items, k) + [answer]);
  }

  lemma ActAccounts(net: Net, a: Action)
    requires Healthy(net) && Accounts(net)
    ensures Accounts(Act(net, a))
  {
    match a
    case Deliver(k) => if k < |net.items| { DeliverAccounts(net, k); }
    case Fetch(k, result) => if k < |net.items| && net.items[k].AtRequester? { FetchAccounts(net, k, result); }
    case AtSolidifier(i, e) => if i < |net.sols| { SolStepAccounts(net, i, e, net.items); }
    case AtCollector(c, e) => if c < |net.cols| && (e.Seen? || e.Referenced?) { ColStepAccounts(net, c, e, net.items); }
    case ForgetAtSolidifier(_, _, _) =>
    case ForgetAtCollector(c, m, r) => if c < |net.cols| { ForgetAccounts(net, c, m, r); }
  }

  lemma ForgetAccounts(net: Net, c: nat, messages: set<MessageId>, refs: set<MessageId>)
    requires Accounts(net) && c < |net.cols|
    ensures Accounts(net.(cols := net.cols[c := Forget(net.cols[c], messages, refs)]))
  {
  }

  lemma {:induction false} RunAccounts(net: Net, actions: seq<Action>)
    requires Healthy(net) && NoOrphan(net) && Accounts(net)
    ensures Accounts(Run(net, actions))
    decreases |actions|
  {
    if actions != [] {
      ActKeepsNoOrphan(net, actions[0]);
      ActAccounts(net, actions[0]);
      RunAccounts(Act(net, actions[0]), actions[1..]);
    }
  }

  /** Main result: after any run every Collector's count for a Requester is the number of its unanswered requests, so it
      never underflows; and the next request goes to a Requester with the fewest of them. */
  lemma CountsAreExact(count: nat, gapStart: nat, archiving: bool, requesters: seq<Handle>, actions: seq<Action>,
                       c: nat, target: Target, index: nat)
    requires count > 0 && requesters != [] && DistinctIds(requesters)
    requires forall i :: 0 <= i < |requesters| ==> requesters[i].processed == 0
    requires c < |Run(Begin(count, gapStart, archiving, requesters), actions).cols|
    ensures var net := Run(Begin(count, gapStart, archiving, requesters), actions);
            var hs := net.cols[c].requesters;
            && (forall i :: 0 <= i < |hs| ==> hs[i].processed == Load(net.items, c, hs[i].id))
            && exists r :: Ask(hs, target, index).1 == [Request(r, target, index)]
                        && forall i :: 0 <= i < |hs| ==> Load(net.items, c, r) <= Load(net.items, c, hs[i].id)
  {
    var begin := Begin(count, gapStart, archiving, requesters);
    forall d | 0 <= d < |begin.cols|
      ensures Exact(begin.cols[d].requesters, [], d)
    {
    }
    assert Healthy(begin) && NoOrphan(begin);
    RunAccounts(begin, actions);
    RunKeepsNoOrphan(begin, actions);
    var net := Run(begin, actions);
    var hs := net.cols[c].requesters;
    assert Ready(net.cols[c]) && Exact(hs, net.items, c);
    var r := hs[Least(hs)].id;
    assert Ask(hs, target, index).1 == [Request(r, target, index)];
  }
}
