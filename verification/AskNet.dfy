/** Solidifiers, Collectors and Requesters joined by their channels: no message a milestone waits for is forgotten. */
module AskNet {
  import opened Types
  import So = SolidifierSpec
  import opened SolidifierProofs
  import opened CollectorSpec

  /** What is in flight: an ask, a request at a Requester, its answer, or an event for a Solidifier. */
  datatype Item =
    | ToCollector(collector: nat, ask: Event)
    | AtRequester(collector: nat, requester: nat, target: Target, index: nat)
    | Answer(collector: nat, requester: nat, index: nat, result: Option<FullMessage>)
    | ToSol(solidifier: nat, event: So.Event)

  /** There are as many Collectors as Solidifiers. Channels are bags: any item may be delivered next. */
  datatype Net = Net(sols: seq<So.State>, cols: seq<State>, items: seq<Item>)

  datatype Action =
    | Deliver(k: nat)
    | Fetch(k: nat, result: Option<FullMessage>)
    | AtSolidifier(at: nat, event: So.Event)
    | AtCollector(at: nat, feed: Event)
    | ForgetAtSolidifier(at: nat, unreachable: set<nat>, inDatabase: set<nat>)
    | ForgetAtCollector(at: nat, messages: set<MessageId>, refs: set<MessageId>)

  // ------------------------------------------------------------------------------------------------------------
  // Channels
  // ------------------------------------------------------------------------------------------------------------

  /** Where a Solidifier's message goes among `n` Collectors; only asks stay in this network. */
  function SolItem(o: So.Out, n: nat): seq<Item>
    requires n > 0
  {
    match o
    case AskMessage(index, id, createdBy) => [ToCollector(id.firstByte % n, CollectorSpec.AskMessage(index % n, index, id, createdBy))]
    case AskMilestone(index) => [ToCollector(index % n, CollectorSpec.AskMilestone(index))]
    case _ => []
  }

  function SolItems(outs: seq<So.Out>, n: nat): seq<Item>
    requires n > 0
  {
    if outs == [] then [] else SolItem(outs[0], n) + SolItems(outs[1..], n)
  }

  /** Where a message of Collector `c` goes; rows are not part of this network. */
  function ColItem(o: Out, c: nat): seq<Item> {
    match o
    case ToSolidifier(i, e) => [ToSol(i, e)]
    case Request(r, target, index) => [AtRequester(c, r, target, index)]
    case _ => []
  }

  function ColItems(outs: seq<Out>, c: nat): seq<Item> {
    if outs == [] then [] else ColItem(outs[0], c) + ColItems(outs[1..], c)
  }

  function Without<T>(s: seq<T>, k: nat): seq<T>
    requires k < |s|
  {
    s[..k] + s[k + 1..]
  }

  function SolStep(net: Net, i: nat, e: So.Event, rest: seq<Item>): Net
    requires i < |net.sols| && net.sols[i].count > 0
  {
    var (t, outs) := So.Step(net.sols[i], e);
    net.(sols := net.sols[i := t], items := rest + SolItems(outs, |net.sols|))
  }

  function ColStep(net: Net, c: nat, e: Event, rest: seq<Item>): Net
    requires c < |net.cols| && net.cols[c].count > 0
  {
    var (t, outs) := Step(net.cols[c], e);
    net.(cols := net.cols[c := t], items := rest + ColItems(outs, c))
  }

  ghost predicate Wired(net: Net) {
    && |net.sols| == |net.cols| > 0
    && (forall i :: 0 <= i < |net.sols| ==> net.sols[i].count == |net.sols|)
    && (forall c :: 0 <= c < |net.cols| ==> net.cols[c].count == |net.sols|)
  }

  /** A Requester answers a request for a message with that message, or with a failure. */
  predicate Fits(target: Target, result: Option<FullMessage>) {
    target.TheMessage? && result.Some? ==> result.value.id == target.id
  }

  /** Actions that make no sense do nothing. */
  ghost function Act(net: Net, a: Action): Net
    requires Wired(net)
  {
    match a
    case Deliver(k) => if k < |net.items| then Delivered(net, k) else net
    case Fetch(k, result) =>
      if k < |net.items| && net.items[k].AtRequester? && Fits(net.items[k].target, result) then
        var r := net.items[k];
        net.(items := Without(net.items, k) + [Answer(r.collector, r.requester, r.index, result)])
      else net
    case AtSolidifier(i, e) => if i < |net.sols| && Subject(e) % |net.sols| == i then SolStep(net, i, e, net.items) else net
    case AtCollector(c, e) => if c < |net.cols| && (e.Seen? || e.Referenced?) then ColStep(net, c, e, net.items) else net
    case ForgetAtSolidifier(i, u, d) => if i < |net.sols| then net.(sols := net.sols[i := So.Forget(net.sols[i], u, d)]) else net
    case ForgetAtCollector(c, m, r) => if c < |net.cols| then net.(cols := net.cols[c := Forget(net.cols[c], m, r)]) else net
  }

  function Delivered(net: Net, k: nat): Net
    requires k < |net.items|
    requires forall i :: 0 <= i < |net.sols| ==> net.sols[i].count > 0
    requires forall c :: 0 <= c < |net.cols| ==> net.cols[c].count > 0
  {
    match net.items[k]
    case ToCollector(c, e) => if c < |net.cols| then ColStep(net, c, e, Without(net.items, k)) else net
    case Answer(c, r, index, result) => if c < |net.cols| then ColStep(net, c, Fetched(r, index, result), Without(net.items, k)) else net
    case ToSol(i, e) => if i < |net.sols| then SolStep(net, i, e, Without(net.items, k)) else net
    case AtRequester(_, _, _, _) => net
  }

  // ------------------------------------------------------------------------------------------------------------
  // Nothing pending is forgotten
  // ------------------------------------------------------------------------------------------------------------

  /** The event ends milestone `m`'s waiting for message `id`. */
  predicate Settles(e: So.Event, id: MessageId, m: nat) {
    match e
    case Message(f) => f.id == id && f.refMs == m
    case CloseMessage(x, index) => x == id && index == m
    case SolidifyFailure(index) => index == m
    case _ => false
  }

  /** The item will lead to an event that settles message `id` for milestone `m`. */
  predicate Tracks(item: Item, id: MessageId, m: nat, n: nat)
    requires n > 0
  {
    match item
    case ToCollector(_, ask) => ask.AskMessage? && ask.id == id && ask.index == m && ask.solidifier == m % n
    case AtRequester(_, _, target, index) => target == TheMessage(id) && index == m
    case Answer(_, _, index, result) => index == m && (result.None? || result.value.id == id)
    case ToSol(i, e) => i == m % n && Settles(e, id, m)
  }

  ghost predicate ParkedFor(s: State, id: MessageId, m: nat) {
    exists i :: 0 <= i < |s.parked| && s.parked[i].id == id && s.parked[i].index == m
  }

  ghost predicate InFlight(items: seq<Item>, id: MessageId, m: nat, n: nat)
    requires n > 0
  {
    exists k :: 0 <= k < |items| && Tracks(items[k], id, m, n)
  }

  /** Message `id` is asked for, parked, requested, fetched or settled on behalf of milestone `m`. */
  ghost predicate Tracked(net: Net, id: MessageId, m: nat)
    requires |net.sols| > 0
  {
    InFlight(net.items, id, m, |net.sols|) || exists c :: 0 <= c < |net.cols| && ParkedFor(net.cols[c], id, m)
  }

  ghost predicate Pending(s: So.State, id: MessageId, m: nat) {
    m in s.entries && id in s.entries[m].pending
  }

  ghost predicate NoOrphan(net: Net)
    requires |net.sols| > 0
  {
    forall i, id, m :: 0 <= i < |net.sols| && Pending(net.sols[i], id, m) ==> Tracked(net, id, m)
  }

  /** Every event in flight is on its way to the Solidifier of its milestone. */
  predicate Routed(item: Item, n: nat)
    requires n > 0
  {
    match item
    case ToCollector(c, ask) => c < n && (ask.AskMessage? ==> ask.solidifier == ask.index % n) && (ask.AskMessage? || ask.AskMilestone?)
    case AtRequester(c, _, _, _) => c < n
    case Answer(c, _, _, _) => c < n
    case ToSol(i, e) => i == Subject(e) % n
  }

  // ------------------------------------------------------------------------------------------------------------
  // A Solidifier's step
  // ------------------------------------------------------------------------------------------------------------

  /** An event that settles a message ends the waiting for it. */
  lemma SettledIsNotPending(s: So.State, e: So.Event, id: MessageId, m: nat)
    requires Indexed(s) && Settles(e, id, m)
    ensures !Pending(So.Step(s, e).0, id, m)
  {
    if e.Message? {
      if m in s.entries {
        var t := s.(entries := s.entries[m := So.Stored(s.entries[m], e.message)]);
        PushFrame(t, m);
      }
    } else if e.CloseMessage? {
      if m in s.entries {
        var t := s.(entries := s.entries[m := s.entries[m].(pending := s.entries[m].pending - {id})]);
        PushFrame(t, m);
      }
    }
  }

  lemma AskSent(index: nat, ids: seq<MessageId>, createdBy: CreatedBy, id: MessageId)
    requires id in ids
    ensures So.AskMessage(index, id, createdBy) in So.AsksFor(index, ids, createdBy)
  {
    var i :| 0 <= i < |ids| && ids[i] == id;
    assert So.AsksFor(index, ids, createdBy)[i] == So.AskMessage(index, id, createdBy);
  }

  ghost predicate AskedIn(outs: seq<So.Out>, id: MessageId, m: nat) {
    exists createdBy :: So.AskMessage(m, id, createdBy) in outs
  }

  /** What a stored message makes pending is asked for. */
  lemma StoredAsks(d: MilestoneData, index: nat, m: FullMessage, id: MessageId)
    requires id in So.Stored(d, m).pending && id !in d.pending
    ensures AskedIn(So.ParentAsks(d, index, m), id, index)
  {
    AskSent(index, So.Missing(m.message.parents, So.Known(d)), d.createdBy, id);
  }

  lemma StoreAsks(s: So.State, e: So.Event, id: MessageId, m: nat)
    requires Indexed(s) && Arrives(e) && Subject(e) in s.entries
    requires Pending(So.Step(s, e).0, id, m) && !Pending(s, id, m)
    ensures AskedIn(So.Step(s, e).1, id, m)
  {
    var index := Subject(e);
    var d := So.Stored(s.entries[index], e.message);
    var t := s.(entries := s.entries[index := if e.Message? then d else d.(milestone := Some(e.message.id))]);
    PushFrame(t, index);
    StoredAsks(s.entries[index], index, e.message, id);
  }

  lemma InsertAsks(s: So.State, index: nat, f: FullMessage, id: MessageId, m: nat)
    requires s.count > 0 && index !in s.entries
    requires Pending(So.InsertNewEntryOrNot(s, index, f).0, id, m) && !Pending(s, id, m)
    ensures AskedIn(So.InsertNewEntryOrNot(s, index, f).1, id, m)
  {
    if s.first.None? {
      StoredAsks(NewMilestoneData(index, Syncer), index, f, id);
    } else {
      var d := NewMilestoneData(index, Incoming).(milestone := if f.message.milestone.Some? then Some(f.id) else None);
      StoredAsks(d, index, f, id);
    }
  }

  /** Whatever a Solidifier newly waits for, it asks for. */
  lemma NewPendingIsAsked(s: So.State, e: So.Event, id: MessageId, m: nat)
    requires Indexed(s)
    requires Pending(So.Step(s, e).0, id, m) && !Pending(s, id, m)
    ensures AskedIn(So.Step(s, e).1, id, m)
  {
    if Arrives(e) {
      if Subject(e) in s.entries { StoreAsks(s, e, id, m); } else { InsertAsks(s, Subject(e), e.message, id, m); }
    } else if e.CloseMessage? && e.index in s.entries {
      PushFrame(s.(entries := s.entries[e.index := s.entries[e.index].(pending := s.entries[e.index].pending - {e.id})]), e.index);
    }
  }

  lemma {:induction false} SolItemIn(outs: seq<So.Out>, n: nat, o: So.Out, item: Item)
    requires n > 0 && o in outs && item in SolItem(o, n)
    ensures item in SolItems(outs, n)
    decreases |outs|
  {
    if o != outs[0] {
      SolItemIn(outs[1..], n, o, item);
    }
  }

  lemma {:induction false} ColItemIn(outs: seq<Out>, c: nat, o: Out, item: Item)
    requires o in outs && item in ColItem(o, c)
    ensures item in ColItems(outs, c)
    decreases |outs|
  {
    if o != outs[0] {
      ColItemIn(outs[1..], c, o, item);
    }
  }

  // ------------------------------------------------------------------------------------------------------------
  // A Collector's step
  // ------------------------------------------------------------------------------------------------------------

  /** At most one ask is parked for each message. */
  ghost predicate OneEach(ps: seq<Parked>) {
    forall i, j :: 0 <= i < j < |ps| ==> ps[i].id != ps[j].id
  }

  ghost predicate Ready(s: State) {
    s.count > 0 && s.requesters != [] && OneEach(s.parked)
  }

  ghost predicate IsParked(ps: seq<Parked>, id: MessageId, m: nat) {
    exists i :: 0 <= i < |ps| && ps[i].id == id && ps[i].index == m
  }

  /** The sent message goes on tracking message `id` for milestone `m`. */
  predicate Passes(o: Out, id: MessageId, m: nat, n: nat)
    requires n > 0
  {
    match o
    case ToSolidifier(i, e) => i == m % n && Settles(e, id, m)
    case Request(_, target, index) => target == TheMessage(id) && index == m
    case _ => false
  }

  ghost predicate PassedOn(outs: seq<Out>, id: MessageId, m: nat, n: nat)
    requires n > 0
  {
    exists o :: o in outs && Passes(o, id, m, n)
  }

  /** The event concerns message `id` on behalf of milestone `m`. */
  predicate Concerns(e: Event, id: MessageId, m: nat, n: nat)
    requires n > 0
  {
    match e
    case AskMessage(i, index, x, _) => i == m % n && index == m && x == id
    case Fetched(_, index, result) => index == m && (result.None? || result.value.id == id)
    case _ => false
  }

  ghost predicate Kept(now: (State, seq<Out>), id: MessageId, m: nat, n: nat)
    requires n > 0
  {
    IsParked(now.0.parked, id, m) || PassedOn(now.1, id, m, n)
  }

  lemma {:induction false} RemoveKeepsOneEach(ps: seq<Parked>, id: MessageId)
    requires OneEach(ps)
    ensures OneEach(Remove(ps, id)) && |Remove(ps, id)| <= |ps|
    decreases |ps|
  {
    if ps != [] {
      RemoveKeepsOneEach(ps[1..], id);
      var r := Remove(ps[1..], id);
      assert forall i :: 0 <= i < |r| ==> r[i] in ps[1..];
      assert forall i :: 0 <= i < |ps[1..]| ==> ps[1..][i] == ps[i + 1];
    }
  }

  /** Parked asks of other messages survive a removal; the one of this message is what `Find` found. */
  lemma RemoveSplits(ps: seq<Parked>, x: MessageId, id: MessageId, m: nat)
    requires OneEach(ps) && IsParked(ps, id, m)
    ensures id != x ==> IsParked(Remove(ps, x), id, m)
    ensures id == x ==> Find(ps, x).Some? && Find(ps, x).value.index == m
  {
    var i :| 0 <= i < |ps| && ps[i].id == id && ps[i].index == m;
    if id != x {
      assert ps[i] in Remove(ps, x);
    } else {
      var p := Find(ps, x);
      var j :| 0 <= j < |ps| && ps[j] == p.value;
      assert i == j;
    }
  }

  lemma {:induction false} ReleaseKeeps(hs: seq<Handle>, ps: seq<Parked>, below: nat, id: MessageId, m: nat, n: nat)
    requires hs != [] && n > 0 && IsParked(ps, id, m)
    ensures var (_, kept, outs) := Release(hs, ps, below); IsParked(kept, id, m) || PassedOn(outs, id, m, n)
    decreases |ps|
  {
    var i :| 0 <= i < |ps| && ps[i].id == id && ps[i].index == m;
    var (now, first) := if ps[0].index < below then Ask(hs, TheMessage(ps[0].id), ps[0].index) else (hs, []);
    var (_, kept, rest) := Release(now, ps[1..], below);
    if i > 0 {
      assert ps[1..][i - 1] == ps[i];
      ReleaseKeeps(now, ps[1..], below, id, m, n);
      if IsParked(kept, id, m) {
        var j :| 0 <= j < |kept| && kept[j].id == id && kept[j].index == m;
        assert ([ps[0]] + kept)[j + 1] == kept[j];
      }
    } else if ps[0].index < below {
      assert Passes(first[0], id, m, n);
      assert first[0] in first + rest;
    } else {
      assert ([ps[0]] + kept)[0] == ps[0];
    }
  }

  lemma {:induction false} ReleaseKeepsOneEach(hs: seq<Handle>, ps: seq<Parked>, below: nat)
    requires OneEach(ps)
    ensures OneEach(Release(hs, ps, below).1)
    ensures forall p :: p in Release(hs, ps, below).1 ==> p in ps
    ensures |Release(hs, ps, below).0| == |hs|
    decreases |ps|
  {
    if ps != [] {
      var now := if ps[0].index < below then Ask(hs, TheMessage(ps[0].id), ps[0].index).0 else hs;
      assert OneEach(ps[1..]);
      ReleaseKeepsOneEach(now, ps[1..], below);
      var kept := Release(now, ps[1..], below).1;
      assert forall i :: 0 <= i < |kept| ==> kept[i] in ps[1..];
      assert forall i :: 0 <= i < |ps[1..]| ==> ps[1..][i] == ps[i + 1];
    }
  }

  lemma PassedInPart(outs: seq<Out>, before: seq<Out>, after: seq<Out>, id: MessageId, m: nat, n: nat)
    requires n > 0 && PassedOn(outs, id, m, n)
    ensures PassedOn(before + outs + after, id, m, n)
  {
    var o :| o in outs && Passes(o, id, m, n);
    assert o in before + outs + after;
  }

  lemma FetchedKeeps(s: State, r: nat, index: nat, result: Option<FullMessage>, id: MessageId, m: nat)
    requires Ready(s) && (IsParked(s.parked, id, m) || Concerns(Fetched(r, index, result), id, m, s.count))
    ensures Kept(HandleFetched(s, r, index, result), id, m, s.count)
  {
    var (t, outs) := HandleFetched(s, r, index, result);
    if Concerns(Fetched(r, index, result), id, m, s.count) {
      assert Passes(outs[0], id, m, s.count);
    }
  }

  lemma SettleKeeps(s: State, id: MessageId, ref: nat, m: nat)
    requires Ready(s) && IsParked(s.parked, id, m)
    ensures (id in s.messages && m == ref) || PassedOn(Settle(s, Find(s.parked, id), id, ref), id, m, s.count)
  {
    RemoveSplits(s.parked, id, id, m);
    var outs := Settle(s, Find(s.parked, id), id, ref);
    assert (id in s.messages && m == ref) || Passes(outs[0], id, m, s.count);
  }

  lemma PassedFirst(outs: seq<Out>, after: seq<Out>, id: MessageId, m: nat, n: nat)
    requires n > 0 && PassedOn(outs, id, m, n)
    ensures PassedOn(outs + after, id, m, n)
  {
    assert [] + outs + after == outs + after;
    PassedInPart(outs, [], after, id, m, n);
  }

  lemma PassedLast(before: seq<Out>, outs: seq<Out>, id: MessageId, m: nat, n: nat)
    requires n > 0 && PassedOn(outs, id, m, n)
    ensures PassedOn(before + outs, id, m, n)
  {
    assert before + outs + [] == before + outs;
    PassedInPart(outs, before, [], id, m, n);
  }

  /** A parked ask for the referenced message itself gets the message or is settled. */
  lemma SamePassed(s: State, x: MessageId, ref: nat, m: nat)
    requires Ready(s) && IsParked(s.parked, x, m)
    ensures PassedOn(Pushed(s, x, ref) + Settle(s, Find(s.parked, x), x, ref), x, m, s.count)
  {
    var before, settled := Pushed(s, x, ref), Settle(s, Find(s.parked, x), x, ref);
    SettleKeeps(s, x, ref, m);
    if x in s.messages && m == ref {
      assert Passes(before[0], x, m, s.count);
      PassedFirst(before, settled, x, m, s.count);
    } else {
      PassedLast(before, settled, x, m, s.count);
    }
  }

  lemma ReferenceKeeps(s: State, x: MessageId, ref: nat, id: MessageId, m: nat)
    requires Ready(s) && IsParked(s.parked, id, m)
    ensures Kept(Reference(s, x, ref), id, m, s.count)
  {
    var front := Pushed(s, x, ref) + Settle(s, Find(s.parked, x), x, ref);
    var released, after := Release(s.requesters, Remove(s.parked, x), ref).2, Written(s, x, ref);
    if id == x {
      SamePassed(s, x, ref, m);
      PassedFirst(front, released, id, m, s.count);
      PassedFirst(front + released, after, id, m, s.count);
    } else {
      RemoveSplits(s.parked, x, id, m);
      ReleaseKeeps(s.requesters, Remove(s.parked, x), ref, id, m, s.count);
      if PassedOn(released, id, m, s.count) {
        PassedLast(front, released, id, m, s.count);
        PassedFirst(front + released, after, id, m, s.count);
      }
    }
  }

  lemma AskKeeps(s: State, solidifier: nat, index: nat, x: MessageId, createdBy: CreatedBy, id: MessageId, m: nat)
    requires Ready(s)
    requires IsParked(s.parked, id, m) || Concerns(CollectorSpec.AskMessage(solidifier, index, x, createdBy), id, m, s.count)
    ensures Kept(HandleAsk(s, solidifier, index, x, createdBy), id, m, s.count)
  {
    var (t, outs) := HandleAsk(s, solidifier, index, x, createdBy);
    if x in s.messages && x !in s.refs && s.est != 0 && index >= s.est - 1 {
      ParkKeeps(s, solidifier, index, x, id, m);
    } else if !IsParked(s.parked, id, m) {
      assert Passes(outs[0], id, m, s.count);
    }
  }

  /** Of two asks for the same message one stays parked and the other is closed. */
  lemma ParkKeeps(s: State, solidifier: nat, index: nat, x: MessageId, id: MessageId, m: nat)
    requires Ready(s) && x in s.messages
    requires IsParked(s.parked, id, m) || (id == x && index == m && solidifier == m % s.count)
    ensures Kept(ParkAsk(s, solidifier, index, x), id, m, s.count)
  {
    var (t, outs) := ParkAsk(s, solidifier, index, x);
    var parked := Find(s.parked, x);
    if IsParked(s.parked, id, m) {
      RemoveSplits(s.parked, x, id, m);
      if parked.None? {
        var i :| 0 <= i < |s.parked| && s.parked[i].id == id && s.parked[i].index == m;
        assert t.parked[i] == s.parked[i];
      } else if parked.value.index >= index {
        if id == x {
          assert Passes(outs[0], id, m, s.count);
        } else {
          var i :| 0 <= i < |Remove(s.parked, x)| && Remove(s.parked, x)[i].id == id && Remove(s.parked, x)[i].index == m;
          assert t.parked[i] == Remove(s.parked, x)[i];
        }
      }
    } else if parked.Some? && parked.value.index < index {
      assert Passes(outs[0], id, m, s.count);
    } else {
      assert t.parked[|t.parked| - 1].id == x && t.parked[|t.parked| - 1].index == index;
    }
  }

  /** Main step of a Collector: whatever comes in, a parked ask stays parked or is passed on, and so is what the event
      itself is about. */
  lemma StepKeeps(s: State, e: Event, id: MessageId, m: nat)
    requires Ready(s) && (IsParked(s.parked, id, m) || Concerns(e, id, m, s.count))
    ensures Kept(Step(s, e), id, m, s.count)
  {
    match e
    case Fetched(r, index, result) => FetchedKeeps(s, r, index, result, id, m);
    case AskMessage(i, index, x, createdBy) => AskKeeps(s, i, index, x, createdBy, id, m);
    case Referenced(metadata) =>
      if metadata.refMs.Some? && metadata.id !in s.refs {
        var ref := metadata.refMs.value;
        var t := s.(ref := ref, est := if s.est < ref + 1 then ref + 1 else s.est, refs := s.refs[metadata.id := ref]);
        ReferenceKeeps(t, metadata.id, ref, id, m);
      }
    case _ =>
  }

  lemma ReferenceStaysReady(s: State, x: MessageId, ref: nat)
    requires Ready(s)
    ensures Ready(Reference(s, x, ref).0)
  {
    RemoveKeepsOneEach(s.parked, x);
    ReleaseKeepsOneEach(s.requesters, Remove(s.parked, x), ref);
  }

  lemma ParkStaysReady(s: State, solidifier: nat, index: nat, x: MessageId)
    requires Ready(s) && x in s.messages
    ensures Ready(ParkAsk(s, solidifier, index, x).0)
  {
    RemoveKeepsOneEach(s.parked, x);
  }

  lemma StepStaysReady(s: State, e: Event)
    requires Ready(s)
    ensures var t := Step(s, e).0; Ready(t) && t.count == s.count
  {
    match e
    case AskMessage(i, index, x, createdBy) => if x in s.messages { ParkStaysReady(s, i, index, x); }
    case Referenced(metadata) =>
      if metadata.refMs.Some? && metadata.id !in s.refs {
        var ref := metadata.refMs.value;
        var t := s.(ref := ref, est := if s.est < ref + 1 then ref + 1 else s.est, refs := s.refs[metadata.id := ref]);
        ReferenceStaysReady(t, metadata.id, ref);
      }
    case _ =>
  }

  // ------------------------------------------------------------------------------------------------------------
  // The network
  // ------------------------------------------------------------------------------------------------------------

  ghost predicate AllRouted(items: seq<Item>, n: nat)
    requires n > 0
  {
    forall k :: 0 <= k < |items| ==> Routed(items[k], n)
  }

  ghost predicate Healthy(net: Net) {
    && Wired(net)
    && (forall i :: 0 <= i < |net.sols| ==> Indexed(net.sols[i]) && net.sols[i].id == i)
    && (forall c :: 0 <= c < |net.cols| ==> Ready(net.cols[c]))
    && AllRouted(net.items, |net.sols|)
  }

  lemma {:induction false} SolItemsRouted(outs: seq<So.Out>, n: nat)
    requires n > 0
    ensures AllRouted(SolItems(outs, n), n)
    decreases |outs|
  {
    if outs != [] {
      SolItemsRouted(outs[1..], n);
    }
  }

  /** A Collector sends every event to the Solidifier of its milestone. */
  ghost predicate OutsRouted(outs: seq<Out>, n: nat)
    requires n > 0
  {
    forall i :: 0 <= i < |outs| && outs[i].ToSolidifier? ==> outs[i].solidifier == Subject(outs[i].event) % n
  }

  lemma {:induction false} ColItemsRouted(outs: seq<Out>, c: nat, n: nat)
    requires c < n && OutsRouted(outs, n)
    ensures AllRouted(ColItems(outs, c), n)
    decreases |outs|
  {
    if outs != [] {
      assert ColItem(outs[0], c) == [] || Routed(ColItem(outs[0], c)[0], n);
      ColItemsRouted(outs[1..], c, n);
    }
  }

  lemma {:induction false} ReleaseRoutes(hs: seq<Handle>, ps: seq<Parked>, below: nat, n: nat)
    requires n > 0
    ensures OutsRouted(Release(hs, ps, below).2, n)
    decreases |ps|
  {
    if ps != [] {
      ReleaseRoutes(if ps[0].index < below then Ask(hs, TheMessage(ps[0].id), ps[0].index).0 else hs, ps[1..], below, n);
    }
  }

  lemma StepRoutes(s: State, e: Event)
    requires s.count > 0 && (e.AskMessage? ==> e.solidifier == e.index % s.count)
    ensures OutsRouted(Step(s, e).1, s.count)
  {
    match e
    case Referenced(metadata) =>
      if metadata.refMs.Some? && metadata.id !in s.refs {
        var ref := metadata.refMs.value;
        var t := s.(ref := ref, est := if s.est < ref + 1 then ref + 1 else s.est, refs := s.refs[metadata.id := ref]);
        ReferenceRoutes(t, metadata.id, ref);
      }
    case _ =>
  }

  lemma ReferenceRoutes(s: State, id: MessageId, ref: nat)
    requires s.count > 0
    ensures OutsRouted(Reference(s, id, ref).1, s.count)
  {
    var pushed, settled := Pushed(s, id, ref), Settle(s, Find(s.parked, id), id, ref);
    var released := Release(s.requesters, Remove(s.parked, id), ref).2;
    ReleaseRoutes(s.requesters, Remove(s.parked, id), ref, s.count);
    RoutedConcat(pushed, settled, s.count);
    RoutedConcat(pushed + settled, released, s.count);
    RoutedConcat(pushed + settled + released, Written(s, id, ref), s.count);
  }

  lemma RoutedConcat(a: seq<Out>, b: seq<Out>, n: nat)
    requires n > 0 && OutsRouted(a, n) && OutsRouted(b, n)
    ensures OutsRouted(a + b, n)
  {
  }

  // ------------------------------------------------------------------------------------------------------------

  lemma InFlightLater(items: seq<Item>, more: seq<Item>, id: MessageId, m: nat, n: nat)
    requires n > 0 && (InFlight(items, id, m, n) || InFlight(more, id, m, n))
    ensures InFlight(items + more, id, m, n)
  {
    if InFlight(items, id, m, n) {
      var k :| 0 <= k < |items| && Tracks(items[k], id, m, n);
      assert (items + more)[k] == items[k];
    } else {
      var k :| 0 <= k < |more| && Tracks(more[k], id, m, n);
      assert (items + more)[|items| + k] == more[k];
    }
  }

  /** Taking out one item. */
  lemma InFlightWithout(items: seq<Item>, k: nat, id: MessageId, m: nat, n: nat)
    requires n > 0 && k < |items| && InFlight(items, id, m, n)
    ensures InFlight(Without(items, k), id, m, n) || Tracks(items[k], id, m, n)
  {
    var i :| 0 <= i < |items| && Tracks(items[i], id, m, n);
    if i != k {
      assert Without(items, k)[if i < k then i else i - 1] == items[i];
    }
  }

  lemma AskIsInFlight(outs: seq<So.Out>, id: MessageId, m: nat, n: nat)
    requires n > 0 && AskedIn(outs, id, m)
    ensures InFlight(SolItems(outs, n), id, m, n)
  {
    var createdBy :| So.AskMessage(m, id, createdBy) in outs;
    var item := ToCollector(id.firstByte % n, CollectorSpec.AskMessage(m % n, m, id, createdBy));
    SolItemIn(outs, n, So.AskMessage(m, id, createdBy), item);
    var k :| 0 <= k < |SolItems(outs, n)| && SolItems(outs, n)[k] == item;
    assert Tracks(SolItems(outs, n)[k], id, m, n);
  }

  lemma PassedIsInFlight(outs: seq<Out>, c: nat, id: MessageId, m: nat, n: nat)
    requires n > 0 && PassedOn(outs, id, m, n)
    ensures InFlight(ColItems(outs, c), id, m, n)
  {
    var o :| o in outs && Passes(o, id, m, n);
    var item := ColItem(o, c)[0];
    ColItemIn(outs, c, o, item);
    var k :| 0 <= k < |ColItems(outs, c)| && ColItems(outs, c)[k] == item;
    assert Tracks(ColItems(outs, c)[k], id, m, n);
  }

  /** At most what the delivered event settles is no longer in flight. */
  ghost predicate LosesOnly(items: seq<Item>, rest: seq<Item>, e: So.Event, n: nat)
    requires n > 0
  {
    forall id, m :: InFlight(items, id, m, n) ==> InFlight(rest, id, m, n) || Settles(e, id, m)
  }

  lemma SolStepKeepsTracked(net: Net, i: nat, e: So.Event, rest: seq<Item>, id: MessageId, m: nat)
    requires Healthy(net) && i < |net.sols| && LosesOnly(net.items, rest, e, |net.sols|)
    requires Tracked(net, id, m) && !Settles(e, id, m)
    ensures Tracked(SolStep(net, i, e, rest), id, m)
  {
    if InFlight(net.items, id, m, |net.sols|) {
      InFlightLater(rest, SolItems(So.Step(net.sols[i], e).1, |net.sols|), id, m, |net.sols|);
    } else {
      var c :| 0 <= c < |net.cols| && ParkedFor(net.cols[c], id, m);
      assert ParkedFor(SolStep(net, i, e, rest).cols[c], id, m);
    }
  }

  lemma PendingAfterSolStep(net: Net, i: nat, e: So.Event, rest: seq<Item>, j: nat, id: MessageId, m: nat)
    requires Healthy(net) && NoOrphan(net)
    requires i < |net.sols| && Subject(e) % |net.sols| == i && LosesOnly(net.items, rest, e, |net.sols|)
    requires j < |net.sols| && Pending(SolStep(net, i, e, rest).sols[j], id, m)
    ensures Tracked(SolStep(net, i, e, rest), id, m)
  {
    var s, outs := net.sols[i], So.Step(net.sols[i], e).1;
    if j != i || Pending(s, id, m) {
      assert Pending(net.sols[j], id, m);
      if Settles(e, id, m) {
        SettledIsNotPending(s, e, id, m);
      }
      SolStepKeepsTracked(net, i, e, rest, id, m);
    } else {
      NewPendingIsAsked(s, e, id, m);
      AskIsInFlight(outs, id, m, |net.sols|);
      InFlightLater(rest, SolItems(outs, |net.sols|), id, m, |net.sols|);
    }
  }

  lemma SolStepStaysHealthy(net: Net, i: nat, e: So.Event, rest: seq<Item>)
    requires Healthy(net) && i < |net.sols| && Subject(e) % |net.sols| == i && AllRouted(rest, |net.sols|)
    ensures Healthy(SolStep(net, i, e, rest))
  {
    StepKeepsIndexed(net.sols[i], e);
    SolItemsRouted(So.Step(net.sols[i], e).1, |net.sols|);
  }

  lemma SolStepKeepsNoOrphan(net: Net, i: nat, e: So.Event, rest: seq<Item>)
    requires Healthy(net) && NoOrphan(net)
    requires i < |net.sols| && Subject(e) % |net.sols| == i
    requires LosesOnly(net.items, rest, e, |net.sols|) && AllRouted(rest, |net.sols|)
    ensures var u := SolStep(net, i, e, rest); Healthy(u) && NoOrphan(u)
  {
    SolStepStaysHealthy(net, i, e, rest);
    var u := SolStep(net, i, e, rest);
    forall j, id, m | 0 <= j < |u.sols| && Pending(u.sols[j], id, m)
      ensures Tracked(u, id, m)
    {
      PendingAfterSolStep(net, i, e, rest, j, id, m);
    }
  }

  ghost predicate LosesAtMost(items: seq<Item>, rest: seq<Item>, e: Event, n: nat)
    requires n > 0
  {
    forall id, m :: InFlight(items, id, m, n) ==> InFlight(rest, id, m, n) || Concerns(e, id, m, n)
  }

  lemma ColStepKeepsTracked(net: Net, c: nat, e: Event, rest: seq<Item>, id: MessageId, m: nat)
    requires Healthy(net) && c < |net.cols| && LosesAtMost(net.items, rest, e, |net.sols|)
    requires Tracked(net, id, m)
    ensures Tracked(ColStep(net, c, e, rest), id, m)
  {
    var n, s, u := |net.sols|, net.cols[c], ColStep(net, c, e, rest);
    var outs := Step(s, e).1;
    if InFlight(rest, id, m, n) {
      InFlightLater(rest, ColItems(outs, c), id, m, n);
    } else if IsParked(s.parked, id, m) || Concerns(e, id, m, n) {
      StepKeeps(s, e, id, m);
      if PassedOn(outs, id, m, n) {
        PassedIsInFlight(outs, c, id, m, n);
        InFlightLater(rest, ColItems(outs, c), id, m, n);
      } else {
        assert ParkedFor(u.cols[c], id, m);
      }
    } else {
      var d :| 0 <= d < |net.cols| && ParkedFor(net.cols[d], id, m);
      assert ParkedFor(u.cols[d], id, m);
    }
  }

  lemma ColStepKeepsNoOrphan(net: Net, c: nat, e: Event, rest: seq<Item>)
    requires Healthy(net) && NoOrphan(net)
    requires c < |net.cols| && (e.AskMessage? ==> e.solidifier == e.index % |net.sols|)
    requires LosesAtMost(net.items, rest, e, |net.sols|) && AllRouted(rest, |net.sols|)
    ensures var u := ColStep(net, c, e, rest); Healthy(u) && NoOrphan(u)
  {
    var u, s := ColStep(net, c, e, rest), net.cols[c];
    StepStaysReady(s, e);
    StepRoutes(s, e);
    ColItemsRouted(Step(s, e).1, c, |net.sols|);
    forall j, id, m | 0 <= j < |u.sols| && Pending(u.sols[j], id, m)
      ensures Tracked(u, id, m)
    {
      assert Pending(net.sols[j], id, m);
      ColStepKeepsTracked(net, c, e, rest, id, m);
    }
  }

  // ------------------------------------------------------------------------------------------------------------
  // Every action, every run
  // ------------------------------------------------------------------------------------------------------------

  lemma DeliverKeepsNoOrphan(net: Net, k: nat)
    requires Healthy(net) && NoOrphan(net) && k < |net.items|
    ensures Healthy(Delivered(net, k)) && NoOrphan(Delivered(net, k))
  {
    var n, rest, item := |net.sols|, Without(net.items, k), net.items[k];
    assert Routed(item, n);
    forall id, m | InFlight(net.items, id, m, n)
      ensures InFlight(rest, id, m, n) || Tracks(item, id, m, n)
    {
      InFlightWithout(net.items, k, id, m, n);
    }
    match item
    case ToCollector(c, e) => ColStepKeepsNoOrphan(net, c, e, rest);
    case Answer(c, r, index, result) => ColStepKeepsNoOrphan(net, c, Fetched(r, index, result), rest);
    case ToSol(i, e) => SolStepKeepsNoOrphan(net, i, e, rest);
    case AtRequester(_, _, _, _) =>
  }

  /** The items change, the actors wait for nothing new. */
  lemma SameWaiting(net: Net, u: Net)
    requires |net.sols| > 0 && |u.sols| == |net.sols| && NoOrphan(net)
    requires forall i, id, m :: 0 <= i < |u.sols| && Pending(u.sols[i], id, m) ==> Pending(net.sols[i], id, m)
    requires forall id, m :: Tracked(net, id, m) ==> Tracked(u, id, m)
    ensures NoOrphan(u)
  {
  }

  /** A Requester's answer goes on tracking what the request was for. */
  lemma AnswerTracks(items: seq<Item>, k: nat, result: Option<FullMessage>, id: MessageId, m: nat, n: nat)
    requires n > 0 && k < |items| && items[k].AtRequester? && Fits(items[k].target, result)
    requires InFlight(items, id, m, n)
    ensures var r := items[k];
            InFlight(Without(items, k) + [Answer(r.collector, r.requester, r.index, result)], id, m, n)
  {
    var r := items[k];
    var answer := Answer(r.collector, r.requester, r.index, result);
    InFlightWithout(items, k, id, m, n);
    if Tracks(r, id, m, n) {
      assert Tracks([answer][0], id, m, n);
    }
    InFlightLater(Without(items, k), [answer], id, m, n);
  }

  lemma FetchKeepsNoOrphan(net: Net, k: nat, result: Option<FullMessage>)
    requires Healthy(net) && NoOrphan(net) && k < |net.items|
    requires net.items[k].AtRequester? && Fits(net.items[k].target, result)
    ensures Healthy(Act(net, Fetch(k, result))) && NoOrphan(Act(net, Fetch(k, result)))
  {
    var n, u := |net.sols|, Act(net, Fetch(k, result));
    assert Routed(net.items[k], n);
    forall id, m | Tracked(net, id, m)
      ensures Tracked(u, id, m)
    {
      if InFlight(net.items, id, m, n) {
        AnswerTracks(net.items, k, result, id, m, n);
      }
    }
    SameWaiting(net, u);
  }

  lemma ForgetAtSolidifierKeepsNoOrphan(net: Net, i: nat, drop: set<nat>, dropDb: set<nat>)
    requires Healthy(net) && NoOrphan(net) && i < |net.sols|
    ensures var u := net.(sols := net.sols[i := So.Forget(net.sols[i], drop, dropDb)]); Healthy(u) && NoOrphan(u)
  {
    var u := net.(sols := net.sols[i := So.Forget(net.sols[i], drop, dropDb)]);
    forall id, m | Tracked(net, id, m)
      ensures Tracked(u, id, m)
    {
    }
    SameWaiting(net, u);
  }

  lemma ForgetAtCollectorKeepsNoOrphan(net: Net, c: nat, messages: set<MessageId>, refs: set<MessageId>)
    requires Healthy(net) && NoOrphan(net) && c < |net.cols|
    ensures var u := net.(cols := net.cols[c := Forget(net.cols[c], messages, refs)]); Healthy(u) && NoOrphan(u)
  {
    var u := net.(cols := net.cols[c := Forget(net.cols[c], messages, refs)]);
    forall id, m | Tracked(net, id, m)
      ensures Tracked(u, id, m)
    {
      if !InFlight(net.items, id, m, |net.sols|) {
        var d :| 0 <= d < |net.cols| && ParkedFor(net.cols[d], id, m);
        assert ParkedFor(u.cols[d], id, m);
      }
    }
    SameWaiting(net, u);
  }

  lemma ActKeepsNoOrphan(net: Net, a: Action)
    requires Healthy(net) && NoOrphan(net)
    ensures Healthy(Act(net, a)) && NoOrphan(Act(net, a))
  {
    match a
    case Deliver(k) => if k < |net.items| { DeliverKeepsNoOrphan(net, k); }
    case Fetch(k, result) =>
      if k < |net.items| && net.items[k].AtRequester? && Fits(net.items[k].target, result) { FetchKeepsNoOrphan(net, k, result); }
    case AtSolidifier(i, e) => if i < |net.sols| && Subject(e) % |net.sols| == i { SolStepKeepsNoOrphan(net, i, e, net.items); }
    case AtCollector(c, e) => if c < |net.cols| && (e.Seen? || e.Referenced?) { ColStepKeepsNoOrphan(net, c, e, net.items); }
    case ForgetAtSolidifier(i, u, d) => if i < |net.sols| { ForgetAtSolidifierKeepsNoOrphan(net, i, u, d); }
    case ForgetAtCollector(c, m, r) => if c < |net.cols| { ForgetAtCollectorKeepsNoOrphan(net, c, m, r); }
  }

  ghost function Begin(count: nat, gapStart: nat, archiving: bool, requesters: seq<Handle>): Net {
    Net(seq(count, i requires 0 <= i => So.Init(i, count, gapStart, archiving)),
        seq(count, c requires 0 <= c => State(count, 0, 0, map[], map[], [], requesters)), [])
  }

  ghost function Run(net: Net, actions: seq<Action>): Net
    decreases |actions|
  {
    if actions == [] || !Wired(net) then net else Run(Act(net, actions[0]), actions[1..])
  }

  lemma {:induction false} RunKeepsNoOrphan(net: Net, actions: seq<Action>)
    requires Healthy(net) && NoOrphan(net)
    ensures Healthy(Run(net, actions)) && NoOrphan(Run(net, actions))
    decreases |actions|
  {
    if actions != [] {
      ActKeepsNoOrphan(net, actions[0]);
      RunKeepsNoOrphan(Act(net, actions[0]), actions[1..]);
    }
  }

  /** Main result: after any run, whatever the caches forget and whichever requests fail, every message a milestone waits
      for is still asked for, parked, requested, fetched or about to be settled. */
  lemma NothingIsForgotten(count: nat, gapStart: nat, archiving: bool, requesters: seq<Handle>, actions: seq<Action>,
                           i: nat, id: MessageId, m: nat)
    requires count > 0 && requesters != []
    ensures var net := Run(Begin(count, gapStart, archiving, requesters), actions);
            |net.sols| > 0 && (i < |net.sols| && Pending(net.sols[i], id, m) ==> Tracked(net, id, m))
  {
    var begin := Begin(count, gapStart, archiving, requesters);
    assert Healthy(begin);
    assert NoOrphan(begin);
    RunKeepsNoOrphan(begin, actions);
  }
}
