/** Requests of the Syncer inside the Solidifiers: where they are and what each event does to them. */
module Tokens {
  import opened Types
  import opened SolidifierSpec
  import opened SolidifierProofs

  // ------------------------------------------------------------------------------------------------------------
  // One Solidifier
  // ------------------------------------------------------------------------------------------------------------

  /** The milestones the Solidifier owes the Syncer an answer for. */
  ghost function Awaited(s: State): set<nat> {
    set k | k in s.entries && s.entries[k].createdBy.Syncer?
  }

  /** The answers to the Syncer among the sent messages, in order. */
  ghost function Replies(outs: seq<Out>): seq<Reply> {
    if outs == [] then []
    else ReplyOf(outs[0]) + Replies(outs[1..])
  }

  ghost function ReplyOf(o: Out): seq<Reply> {
    if o.ToSyncer? then [o.reply] else []
  }

  ghost function ReplyIndexes(rs: seq<Reply>): (r: seq<nat>)
    ensures |r| == |rs| && forall i :: 0 <= i < |rs| ==> r[i] == rs[i].Index()
  {
    seq(|rs|, i requires 0 <= i < |rs| => rs[i].Index())
  }

  ghost function Answers(outs: seq<Out>): multiset<nat> {
    multiset(ReplyIndexes(Replies(outs)))
  }

  lemma {:induction false} RepliesConcat(a: seq<Out>, b: seq<Out>)
    ensures Replies(a + b) == Replies(a) + Replies(b)
    decreases |a|
  {
    if a == [] {
      assert a + b == b;
    } else {
      RepliesConcat(a[1..], b);
      assert (a + b)[1..] == a[1..] + b;
      assert (ReplyOf(a[0]) + Replies(a[1..])) + Replies(b) == ReplyOf(a[0]) + (Replies(a[1..]) + Replies(b));
    }
  }

  lemma {:induction false} NoReplies(asks: seq<Out>)
    requires forall i :: 0 <= i < |asks| ==> !asks[i].ToSyncer?
    ensures Replies(asks) == []
    decreases |asks|
  {
    if asks != [] {
      NoReplies(asks[1..]);
    }
  }

  lemma SilentPrefix(asks: seq<Out>, outs: seq<Out>)
    requires forall i :: 0 <= i < |asks| ==> !asks[i].ToSyncer?
    ensures Replies(asks + outs) == Replies(outs)
  {
    RepliesConcat(asks, outs);
    NoReplies(asks);
  }

  lemma OneReply(r: Reply)
    ensures Replies([ToSyncer(r)]) == [r] && Answers([ToSyncer(r)]) == multiset{r.Index()}
  {
    assert [ToSyncer(r)][1..] == [];
    assert ReplyIndexes([r]) == [r.Index()];
  }

  lemma NoAnswers(outs: seq<Out>)
    requires Replies(outs) == []
    ensures Answers(outs) == multiset{}
  {
  }

  /** The requests an event adds: a request itself, or the first milestone, which is sent without a request. */
  ghost function Added(s: State, t: State, e: Event): multiset<nat> {
    if e.Solidify? then multiset{e.index}
    else if s.first.None? && t.first.Some? then multiset{t.first.value}
    else multiset{}
  }

  /** No request is lost or answered twice: what is owed afterwards and what was answered is what was owed and added. */
  ghost predicate Balanced(s: State, e: Event, t: State, outs: seq<Out>) {
    multiset(Awaited(t)) + Answers(outs) == multiset(Awaited(s)) + Added(s, t, e)
  }

  ghost predicate CollectedForSyncer(outs: seq<Out>) {
    forall i :: 0 <= i < |outs| && outs[i].ToSyncer? && outs[i].reply.Collected? ==> outs[i].reply.data.createdBy.Syncer?
  }

  /** Replacing or dropping one entry. */
  lemma AwaitedAt(s: State, t: State, index: nat)
    requires forall k :: k != index ==> (k in s.entries <==> k in t.entries) && (k in s.entries ==> t.entries[k] == s.entries[k])
    ensures Awaited(s) - {index} == Awaited(t) - {index}
    ensures multiset(Awaited(s)) == multiset(Awaited(s) - {index}) + if index in Awaited(s) then multiset{index} else multiset{}
    ensures multiset(Awaited(t)) == multiset(Awaited(t) - {index}) + if index in Awaited(t) then multiset{index} else multiset{}
  {
    assert forall k :: k in Awaited(s) - {index} <==> k in Awaited(t) - {index};
  }

  lemma PushBalances(s: State, index: nat)
    requires index in s.entries && s.entries[index].index == index
    ensures var (t, outs) := PushIfCompleted(s, index);
            && multiset(Awaited(t)) + Answers(outs) == multiset(Awaited(s))
            && t.first == s.first
            && CollectedForSyncer(outs)
  {
    var (t, outs) := PushIfCompleted(s, index);
    var d := s.entries[index];
    AwaitedAt(s, t, index);
    NoAnswers([]);
    if d.Completed() {
      var asks := outs[..|outs| - |Deliver(s, d)|];
      assert outs == asks + Deliver(s, d);
      SilentPrefix(asks, Deliver(s, d));
      OneReply(Collected(d));
      if !d.createdBy.Syncer? { NoReplies(Deliver(s, d)); }
    }
  }

  lemma StoreBalances(s: State, e: Event)
    requires Indexed(s) && Arrives(e) && Subject(e) in s.entries
    ensures var (t, outs) := Step(s, e); Balanced(s, e, t, outs) && CollectedForSyncer(outs)
  {
    var index := Subject(e);
    var d := Stored(s.entries[index], e.message);
    var u := s.(entries := s.entries[index := if e.Message? then d else d.(milestone := Some(e.message.id))]);
    AwaitedAt(s, u, index);
    PushBalances(u, index);
    SilentPrefix(ParentAsks(s.entries[index], index, e.message), PushIfCompleted(u, index).1);
  }

  lemma FirstBalances(s: State, index: nat, m: FullMessage)
    requires index !in s.entries && s.first.None?
    ensures var (t, outs) := InsertFirst(s, index, m);
            multiset(Awaited(t)) + Answers(outs) == multiset(Awaited(s)) + multiset{index} && CollectedForSyncer(outs)
  {
    var (t, outs) := InsertFirst(s, index, m);
    AwaitedAt(s, t, index);
    NoReplies(outs);
  }

  lemma IncomingBalances(s: State, index: nat, m: FullMessage)
    requires s.count > 0 && index !in s.entries
    ensures var (t, outs) := InsertIncoming(s, index, m);
            multiset(Awaited(t)) + Answers(outs) == multiset(Awaited(s)) && CollectedForSyncer(outs)
  {
    var (t, outs) := InsertIncoming(s, index, m);
    assert forall k :: k in Awaited(t) <==> k in Awaited(s);
    assert Awaited(t) == Awaited(s);
    NoReplies(outs);
  }

  lemma InsertBalances(s: State, index: nat, m: FullMessage)
    requires s.count > 0 && index !in s.entries
    ensures var (t, outs) := InsertNewEntryOrNot(s, index, m);
            && multiset(Awaited(t)) + Answers(outs)
            == multiset(Awaited(s)) + (if s.first.None? && t.first.Some? then multiset{t.first.value} else multiset{})
            && CollectedForSyncer(outs)
  {
    if index in s.unreachable {
      NoAnswers([]);
    } else if s.first.None? && index >= s.gapStart {
      FirstBalances(s, index, m);
    } else if s.first.Some? && index >= s.expected {
      IncomingBalances(s, index, m);
    } else {
      NoAnswers([]);
    }
  }

  lemma CloseBalances(s: State, id: MessageId, index: nat)
    requires Indexed(s)
    ensures var (t, outs) := HandleClose(s, id, index);
            && multiset(Awaited(t)) + Answers(outs) == multiset(Awaited(s))
            && t.first == s.first
            && CollectedForSyncer(outs)
  {
    NoAnswers([]);
    if index in s.entries {
      var u := s.(entries := s.entries[index := s.entries[index].(pending := s.entries[index].pending - {id})]);
      AwaitedAt(s, u, index);
      PushBalances(u, index);
    }
  }

  lemma SolidifyOpens(s: State, index: nat)
    requires index < s.expected && HandleSolidify(s, index).0.entries != s.entries
    ensures var (t, outs) := HandleSolidify(s, index);
            && multiset(Awaited(t)) == multiset(Awaited(s)) + multiset{index}
            && outs == [AskMilestone(index)] && Answers(outs) == multiset{}
  {
    AwaitedAt(s, HandleSolidify(s, index).0, index);
    NoReplies([AskMilestone(index)]);
    NoAnswers([AskMilestone(index)]);
  }

  lemma SolidifyBalances(s: State, index: nat)
    ensures var (t, outs) := HandleSolidify(s, index);
            && multiset(Awaited(t)) + Answers(outs) == multiset(Awaited(s)) + multiset{index}
            && CollectedForSyncer(outs)
  {
    var (t, outs) := HandleSolidify(s, index);
    if index < s.expected && t.entries != s.entries {
      SolidifyOpens(s, index);
    } else {
      OneReply(Unreachable(index));
      assert t.entries == s.entries;
    }
  }

  lemma FailureBalances(s: State, index: nat)
    ensures var (t, outs) := HandleSolidifyFailure(s, index);
            && multiset(Awaited(t)) + Answers(outs) == multiset(Awaited(s))
            && CollectedForSyncer(outs)
  {
    AwaitedAt(s, HandleSolidifyFailure(s, index).0, index);
    OneReply(Unreachable(index));
    NoAnswers([]);
  }

  /** Events about the database leave the requests alone. */
  lemma OthersBalance(s: State, e: Event)
    requires s.count > 0 && (e.Persisted? || e.Analyzed? || e.Synced?)
    ensures var (t, outs) := Step(s, e);
            Awaited(t) == Awaited(s) && t.first == s.first && Replies(outs) == [] && CollectedForSyncer(outs)
  {
    NoReplies(Step(s, e).1);
  }

  /** Main step: whatever a Solidifier receives, each request of the Syncer stays owed until it is answered, exactly once. */
  lemma StepBalances(s: State, e: Event)
    requires Indexed(s)
    ensures var (t, outs) := Step(s, e); Balanced(s, e, t, outs) && CollectedForSyncer(outs)
  {
    match e
    case CloseMessage(id, index) => CloseBalances(s, id, index);
    case Solidify(index) => SolidifyBalances(s, index);
    case SolidifyFailure(index) => FailureBalances(s, index);
    case Message(_) => if Subject(e) in s.entries { StoreBalances(s, e); } else { InsertBalances(s, Subject(e), e.message); }
    case Milestone(_, _) => if Subject(e) in s.entries { StoreBalances(s, e); } else { InsertBalances(s, Subject(e), e.message); }
    case _ => OthersBalance(s, e);
  }
}
