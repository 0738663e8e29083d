/** What the Syncer's handlers leave alone: the outcome of the bootstrap, and the milestone data themselves. */
module SyncerFrames {
  import opened Types
  import opened Ranges
  import opened SyncTable
  import opened SyncerSpec
  import opened SyncerProofs

  /** `d` is in the heap or was handed over. */
  ghost predicate Held(s: State, d: MilestoneData) {
    d in s.heap || exists limit :: Data(d, limit) in s.sent.archived
  }

  /** No new milestone data appear, and what the bootstrap found stays. */
  ghost predicate Keeps(s: State, t: State) {
    && t.highest == s.highest && t.sent.frontier == s.sent.frontier
    && forall d :: Held(t, d) ==> Held(s, d)
  }

  /** Changes that neither touch the heap nor hand over data. */
  ghost predicate Quiet(s: State, t: State) {
    && t.highest == s.highest && t.sent.frontier == s.sent.frontier && t.heap == s.heap
    && (t.sent.archived == s.sent.archived || exists n :: t.sent.archived == s.sent.archived + [Close(n)])
  }

  lemma QuietKeeps(s: State, t: State)
    requires Quiet(s, t)
    ensures Keeps(s, t)
  {
    forall d | Held(t, d)
      ensures Held(s, d)
    {
    }
  }

  lemma {:induction false} TriggerKeeps(c: Config, s: State)
    ensures Keeps(s, TriggerProcessMore(c, s))
    decreases s.syncData.Size(), if s.active.Some? then 1 else 0, 1
  {
    if s.pending == 0 {
      assert TriggerProcessMore(c, s) == ProcessMore(c, s);
      ProcessKeeps(c, s);
    }
  }

  lemma {:induction false} ProcessKeeps(c: Config, s: State)
    ensures Keeps(s, ProcessMore(c, s))
    decreases s.syncData.Size(), if s.active.Some? then 1 else 0, 0
  {
    if s.active.None? {
      QuietKeeps(s, ProcessMore(c, s));
    } else {
      var t := RequestFromActive(s, c.parallelism);
      var u := CloseLogFile(c, t).(active := None);
      QuietKeeps(s, t);
      QuietKeeps(s, u);
      if Remaining(s.active.value) < c.parallelism && t.pending == 0 {
        TakeKeeps(c, u, t.active.value.Complete?);
      }
    }
  }

  lemma {:induction false} TakeKeeps(c: Config, s: State, complete: bool)
    requires s.active.None?
    ensures Keeps(s, TakeNext(c, s, complete))
    decreases s.syncData.Size(), 0, 2
  {
    var (r, rest) := if complete then TakeUncomplete(s.syncData) else TakeGap(s.syncData);
    var t := s.(syncData := rest);
    QuietKeeps(s, t);
    if r.None? {
      TriggerKeeps(c, t);
    } else {
      var gap := if r.value.end != LAST_GAP_END then r.value else Range(r.value.start, s.highest);
      QuietKeeps(s, Start(t, gap, complete));
      TriggerKeeps(c, t);
      TriggerKeeps(c, Start(t, gap, complete));
    }
  }

  lemma AskedKeeps(c: Config, s: State)
    requires s.active.None?
    ensures Keeps(s, CompleteOrFillGaps(c, s))
  {
    if s.firstAsk == Some(AskComplete) || s.firstAsk == Some(AskFillGaps) {
      TakeKeeps(c, s, s.firstAsk == Some(AskComplete));
    }
  }

  lemma HandOver(s: State, t: State, limit: Option<nat>)
    requires s.heap != [] && t.heap == s.heap[1..]
    requires t.sent.archived == s.sent.archived || t.sent.archived == s.sent.archived + [Data(s.heap[0], limit)]
    ensures forall d :: Held(t, d) ==> Held(s, d)
  {
    assert s.heap[0] in s.heap;
  }

  lemma {:induction false} FlushKeeps(c: Config, s: State)
    ensures Keeps(s, Flush(c, s))
    decreases |s.heap|
  {
    if s.heap != [] && s.heap[0].index == s.gap.next {
      HandOver(s, FlushOne(c, s), Some(s.gap.end));
      FlushKeeps(c, FlushOne(c, s));
    }
  }

  lemma {:induction false} SendRestHolds(c: Config, s: State, next: nat)
    ensures forall d :: Held(SendRest(c, s, next), d) ==> Held(s, d)
    decreases |s.heap|
  {
    if s.heap == [] {
      assert forall d :: Held(SendRest(c, s, next), d) ==> Held(s, d);
    } else {
      var t := if s.heap[0].index != next then Archive(c, s.(highest := s.heap[0].index), Close(next)) else s;
      assert forall d :: Held(t, d) ==> Held(s, d);
      var u := Archive(c, t.(heap := s.heap[1..]), Data(s.heap[0], None));
      HandOver(t, u, None);
      SendRestHolds(c, u, s.heap[0].index + 1);
    }
  }

  lemma PushHolds(s: State, d: MilestoneData)
    ensures var t := s.(pending := if s.pending > 0 then s.pending - 1 else 0, heap := Push(s.heap, d));
            forall x :: Held(t, x) ==> Held(s, x) || x == d
  {
  }

  /** Every milestone data the Syncer holds or has handed over after a reply it held before, or came with the reply. */
  lemma ReplyHolds(c: Config, s: State, r: Reply)
    requires Accepts(s, r)
    ensures forall x :: Held(HandleReply(c, s, r), x) ==> Held(s, x) || r == Collected(x)
  {
    if r.Collected? {
      var u := s.(pending := s.pending - 1, heap := Push(s.heap, r.data));
      PushHolds(s, r.data);
      ReceiveHolds(c, u);
      TriggerKeeps(c, Receive(c, u));
    } else {
      var u := s.(pending := s.pending - 1, sent := s.sent.(alerts := s.sent.alerts + [r.index]));
      assert forall x :: Held(HandleSkip(u), x) ==> Held(s, x);
      TriggerKeeps(c, HandleSkip(u));
    }
  }

  lemma ReceiveHolds(c: Config, s: State)
    requires s.highest == 0 ==> s.active.None? && s.heap != []
    requires s.highest != 0 ==> s.active.Some?
    ensures forall x :: Held(Receive(c, s), x) ==> Held(s, x)
    ensures s.highest != 0 ==> Keeps(s, Receive(c, s))
  {
    if s.highest == 0 && s.pending == 0 {
      SendRestHolds(c, s.(highest := s.heap[0].index), s.heap[0].index);
      AskedKeeps(c, SendFirst(c, s));
    } else if s.highest != 0 && !s.skip {
      QuietKeeps(s, RequestFromActive(s, 1));
      FlushKeeps(c, RequestFromActive(s, 1));
    }
  }

  /** After the bootstrap its outcome stays. */
  lemma ReplyKeepsFrontier(c: Config, s: State, r: Reply)
    requires AcceptsReply(s) && s.highest != 0
    ensures var t := HandleReply(c, s, r); t.highest == s.highest && t.sent.frontier == s.sent.frontier
  {
    if r.Collected? {
      var u := s.(pending := s.pending - 1, heap := Push(s.heap, r.data));
      ReceiveHolds(c, u);
      TriggerKeeps(c, Receive(c, u));
    } else {
      TriggerKeeps(c, HandleSkip(s.(pending := s.pending - 1, sent := s.sent.(alerts := s.sent.alerts + [r.index]))));
    }
  }

  lemma AskKeeps(c: Config, s: State, ask: Ask, fetched: Option<Snapshot>)
    ensures Keeps(s, HandleAsk(c, s, ask, fetched))
  {
    if s.active.None? {
      if ask.AskUpdateSyncData? {
        if fetched.Some? { AskedKeeps(c, s.(syncData := fetched.value, eof := false)); }
      } else if s.highest != 0 {
        TakeKeeps(c, s, ask.AskComplete?);
      }
    }
  }
}
