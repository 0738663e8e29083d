/** A Collector as a state machine over values: how asks for messages are answered, parked, closed or forwarded. */
module CollectorSpec {
  import opened Types
  import So = SolidifierSpec

  /** A message seen, with the milestone it was estimated to belong to when its rows were written. */
  datatype Cached = Cached(est: nat, message: Message)

  /** An ask that waits for the message's metadata: asked for by milestone `index`. */
  datatype Parked = Parked(id: MessageId, index: nat, message: Message)

  /** A Requester with the number of its requests that are not answered; negative would be an underflow. */
  datatype Handle = Handle(id: nat, processed: int)

  datatype State = State(
    count: nat,
    est: nat,
    ref: nat,
    messages: map<MessageId, Cached>,
    refs: map<MessageId, nat>,
    parked: seq<Parked>,
    requesters: seq<Handle>)

  datatype Event =
    | Fetched(requester: nat, index: nat, result: Option<FullMessage>)
    | Seen(id: MessageId, message: Message)
    | Referenced(metadata: Metadata)
    | AskMessage(solidifier: nat, index: nat, id: MessageId, createdBy: CreatedBy)
    | AskMilestone(index: nat)

  /** What a request asks for: a message, or the message of the milestone itself. */
  datatype Target = TheMessage(id: MessageId) | TheMilestone

  datatype Out =
    | ToSolidifier(solidifier: nat, event: So.Event)
    | Request(requester: nat, target: Target, index: nat)
    | Persist(id: MessageId, index: nat)
    | CleanUp(id: MessageId, est: nat)

  // ------------------------------------------------------------------------------------------------------------
  // Requesters
  // ------------------------------------------------------------------------------------------------------------

  /** A Requester with the fewest unanswered requests. */
  function Least(hs: seq<Handle>): (i: nat)
    requires hs != []
    ensures i < |hs|
    ensures forall k :: 0 <= k < |hs| ==> hs[i].processed <= hs[k].processed
  {
    if |hs| == 1 then 0
    else
      var j := 1 + Least(hs[1..]);
      if hs[0].processed <= hs[j].processed then 0 else j
  }

  function SendTo(hs: seq<Handle>, i: nat): seq<Handle>
    requires i < |hs|
  {
    hs[i := hs[i].(processed := hs[i].processed + 1)]
  }

  function Ask(hs: seq<Handle>, target: Target, index: nat): (seq<Handle>, seq<Out>) {
    if hs == [] then (hs, []) else (SendTo(hs, Least(hs)), [Request(hs[Least(hs)].id, target, index)])
  }

  function RequestIt(s: State, target: Target, index: nat): (State, seq<Out>) {
    var (hs, outs) := Ask(s.requesters, target, index);
    (s.(requesters := hs), outs)
  }

  function Decremented(hs: seq<Handle>, id: nat): (r: seq<Handle>)
    ensures |r| == |hs|
    ensures forall i :: 0 <= i < |hs| ==> r[i] == if hs[i].id == id then Handle(id, hs[i].processed - 1) else hs[i]
  {
    seq(|hs|, i requires 0 <= i < |hs| => if hs[i].id == id then Handle(id, hs[i].processed - 1) else hs[i])
  }

  // ------------------------------------------------------------------------------------------------------------
  // Parked asks
  // ------------------------------------------------------------------------------------------------------------

  function Find(ps: seq<Parked>, id: MessageId): (r: Option<Parked>)
    ensures r.Some? ==> r.value in ps && r.value.id == id
    ensures r.None? ==> forall i :: 0 <= i < |ps| ==> ps[i].id != id
  {
    if ps == [] then None else if ps[0].id == id then Some(ps[0]) else Find(ps[1..], id)
  }

  function Remove(ps: seq<Parked>, id: MessageId): (r: seq<Parked>)
    ensures forall p :: p in r <==> p in ps && p.id != id
  {
    if ps == [] then [] else if ps[0].id == id then Remove(ps[1..], id) else [ps[0]] + Remove(ps[1..], id)
  }

  /** Requests the parked asks of milestones below `below`, in order; the others stay parked. */
  function Release(hs: seq<Handle>, ps: seq<Parked>, below: nat): (seq<Handle>, seq<Parked>, seq<Out>)
    decreases |ps|
  {
    if ps == [] then (hs, [], [])
    else if ps[0].index < below then
      var (now, outs) := Ask(hs, TheMessage(ps[0].id), ps[0].index);
      var (end, kept, rest) := Release(now, ps[1..], below);
      (end, kept, outs + rest)
    else
      var (end, kept, rest) := Release(hs, ps[1..], below);
      (end, [ps[0]] + kept, rest)
  }

  // ------------------------------------------------------------------------------------------------------------
  // Handlers
  // ------------------------------------------------------------------------------------------------------------

  function Step(s: State, e: Event): (State, seq<Out>)
    requires s.count > 0
  {
    match e
    case Fetched(r, index, result) => HandleFetched(s, r, index, result)
    case Seen(id, message) => HandleSeen(s, id, message)
    case Referenced(metadata) => HandleReferenced(s, metadata)
    case AskMessage(solidifier, index, id, createdBy) => HandleAsk(s, solidifier, index, id, createdBy)
    case AskMilestone(index) => RequestIt(s, TheMilestone, index)
  }

  function Full(index: nat, count: nat, f: FullMessage): Out
    requires count > 0
  {
    ToSolidifier(index % count, So.Message(f))
  }

  function Close(index: nat, count: nat, id: MessageId): Out
    requires count > 0
  {
    ToSolidifier(index % count, So.CloseMessage(id, index))
  }

  /** The rows written under a wrong estimate are cleaned up. */
  function WrongEstimate(s: State, id: MessageId, ref: nat): seq<Out> {
    if id in s.messages && s.messages[id].est != ref then [CleanUp(id, s.messages[id].est)] else []
  }

  function Corrected(s: State, id: MessageId, ref: nat, message: Message): map<MessageId, Cached> {
    s.messages[id := Cached(ref, if id in s.messages then s.messages[id].message else message)]
  }

  /** The answer of a Requester: a message of the milestone goes to its Solidifier, another one is closed, and a failure
      is reported. */
  function HandleFetched(s: State, requester: nat, index: nat, result: Option<FullMessage>): (State, seq<Out>)
    requires s.count > 0
  {
    var t := s.(requesters := Decremented(s.requesters, requester));
    match result
    case None => (t, [ToSolidifier(index % s.count, So.SolidifyFailure(index))])
    case Some(f) =>
      (t.(ref := f.refMs, messages := Corrected(s, f.id, f.refMs, f.message), refs := s.refs[f.id := f.refMs]),
       [if f.refMs == index then Full(index, s.count, f) else Close(index, s.count, f.id)]
       + WrongEstimate(s, f.id, f.refMs) + [Persist(f.id, f.refMs)])
  }

  /** A new message of the feed. */
  function HandleSeen(s: State, id: MessageId, message: Message): (State, seq<Out>) {
    if id in s.messages then (s, [])
    else (s.(messages := s.messages[id := Cached(s.est, message)]), if id in s.refs then [Persist(id, s.refs[id])] else [])
  }

  /** Metadata of the feed: they settle a parked ask, and release the asks of older milestones. */
  function HandleReferenced(s: State, metadata: Metadata): (State, seq<Out>)
    requires s.count > 0
  {
    if metadata.refMs.None? then (s, [])
    else
      var ref := metadata.refMs.value;
      var t := s.(ref := ref, est := if s.est < ref + 1 then ref + 1 else s.est);
      if metadata.id in s.refs then (t, []) else Reference(t.(refs := s.refs[metadata.id := ref]), metadata.id, ref)
  }

  /** Metadata not seen before: the message, if it has been seen, goes to its Solidifier; a parked ask for it is settled;
      the asks of older milestones are released; and the rows are written. */
  function Reference(s: State, id: MessageId, ref: nat): (State, seq<Out>)
    requires s.count > 0
  {
    var (hs, kept, released) := Release(s.requesters, Remove(s.parked, id), ref);
    var messages := if id in s.messages then Corrected(s, id, ref, s.messages[id].message) else s.messages;
    (s.(requesters := hs, parked := kept, messages := messages),
     Pushed(s, id, ref) + Settle(s, Find(s.parked, id), id, ref) + released + Written(s, id, ref))
  }

  function Pushed(s: State, id: MessageId, ref: nat): seq<Out>
    requires s.count > 0
  {
    if id in s.messages then [Full(ref, s.count, FullMessage(s.messages[id].message, id, ref))] else []
  }

  function Written(s: State, id: MessageId, ref: nat): seq<Out> {
    if id in s.messages then WrongEstimate(s, id, ref) + [Persist(id, ref)]
    else if Find(s.parked, id).Some? then [Persist(id, ref)]
    else []
  }

  /** What a parked ask for the message gets: the message, unless the message was pushed anyway, or a close. */
  function Settle(s: State, parked: Option<Parked>, id: MessageId, ref: nat): seq<Out>
    requires s.count > 0
  {
    if parked.None? then []
    else if parked.value.index != ref then [Close(parked.value.index, s.count, id)]
    else if id in s.messages then []
    else [Full(ref, s.count, FullMessage(parked.value.message, id, ref))]
  }

  /** An ask of a Solidifier. */
  function HandleAsk(s: State, solidifier: nat, index: nat, id: MessageId, createdBy: CreatedBy): (State, seq<Out>)
    requires s.count > 0
  {
    if id !in s.messages then RequestIt(s, TheMessage(id), index)
    else if id in s.refs then AnswerAsk(s, solidifier, index, id, createdBy)
    else if s.est != 0 && index >= s.est - 1 then ParkAsk(s, solidifier, index, id)
    else RequestIt(s, TheMessage(id), index)
  }

  function AnswerAsk(s: State, solidifier: nat, index: nat, id: MessageId, createdBy: CreatedBy): (State, seq<Out>)
    requires id in s.messages && id in s.refs
  {
    if s.refs[id] != index then (s, [ToSolidifier(solidifier, So.CloseMessage(id, index))])
    else
      var full := ToSolidifier(solidifier, So.Message(FullMessage(s.messages[id].message, id, s.refs[id])));
      if createdBy.Syncer? then (s.(ref := index), [full, Persist(id, index)]) else (s, [full])
  }

  /** The message is known, its metadata are not yet: of two asks for it the one of the older milestone stays parked. */
  function ParkAsk(s: State, solidifier: nat, index: nat, id: MessageId): (State, seq<Out>)
    requires s.count > 0 && id in s.messages
  {
    var parked := Find(s.parked, id);
    if parked.None? then (s.(parked := s.parked + [Parked(id, index, s.messages[id].message)]), [])
    else if parked.value.index < index then (s, [ToSolidifier(solidifier, So.CloseMessage(id, index))])
    else
      (s.(parked := Remove(s.parked, id) + [parked.value.(index := index)]),
       [Close(parked.value.index, s.count, id)])
  }

  /** The caches forget messages and metadata. */
  function Forget(s: State, messages: set<MessageId>, refs: set<MessageId>): State {
    s.(messages := s.messages - messages, refs := s.refs - refs)
  }

  // ------------------------------------------------------------------------------------------------------------
  // Rows
  // ------------------------------------------------------------------------------------------------------------

  lemma {:induction false} ReleaseOnlyRequests(hs: seq<Handle>, ps: seq<Parked>, below: nat, o: Out)
    requires o in Release(hs, ps, below).2
    ensures o.Request?
    decreases |ps|
  {
    if ps[0].index < below {
      var (now, outs) := Ask(hs, TheMessage(ps[0].id), ps[0].index);
      if o !in outs { ReleaseOnlyRequests(now, ps[1..], below, o); }
    } else {
      ReleaseOnlyRequests(hs, ps[1..], below, o);
    }
  }

  lemma ReferencePersists(s: State, id: MessageId, ref: nat, o: Out)
    requires s.count > 0 && o in Reference(s, id, ref).1 && o.Persist?
    ensures o == Persist(id, ref)
  {
    var pushed, settled := Pushed(s, id, ref), Settle(s, Find(s.parked, id), id, ref);
    var released := Release(s.requesters, Remove(s.parked, id), ref).2;
    if o in released { ReleaseOnlyRequests(s.requesters, Remove(s.parked, id), ref, o); }
    assert o in pushed + settled + released + Written(s, id, ref);
  }

  /** A message with metadata is stored, and counted by a Solidifier, under the milestone its metadata name. */
  lemma PersistsUnderReference(s: State, e: Event, id: MessageId, index: nat)
    requires s.count > 0 && Persist(id, index) in Step(s, e).1
    ensures id in Step(s, e).0.refs && Step(s, e).0.refs[id] == index
  {
    if e.Referenced? && e.metadata.refMs.Some? && e.metadata.id !in s.refs {
      var ref, x := e.metadata.refMs.value, e.metadata.id;
      var t := s.(ref := ref, est := if s.est < ref + 1 then ref + 1 else s.est, refs := s.refs[x := ref]);
      ReferencePersists(t, x, ref, Persist(id, index));
    }
  }
}
