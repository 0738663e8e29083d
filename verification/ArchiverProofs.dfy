/** What the Archiver keeps over every run: its files tile what was written, hold their lines in order and stay small, and
    new data are written once, in increasing order. */
module ArchiverProofs {
  import opened Types
  import opened Ranges
  import opened ArchiverSpec
  import opened ArchiverFiles
  import Heap = SyncerSpec

  // ------------------------------------------------------------------------------------------------------------
  // Contents of the files
  // ------------------------------------------------------------------------------------------------------------

  ghost function Bytes(c: Config, lines: seq<MilestoneData>): nat {
    if lines == [] then 0 else Bytes(c, lines[..|lines| - 1]) + c.lineLen(lines[|lines| - 1])
  }

  /** Line `k` is the data of index `from + k`; the length is that of the lines, and below the limit unless there is only
      one. */
  ghost predicate Kept(c: Config, f: LogFile) {
    && |f.lines| > 0 && f.to == f.from + |f.lines|
    && (forall k :: 0 <= k < |f.lines| ==> f.lines[k].index == f.from + k)
    && f.len == Bytes(c, f.lines)
    && (f.len < c.maxLogSize || |f.lines| == 1)
  }

  ghost predicate AllKept(c: Config, files: seq<LogFile>) {
    forall i :: 0 <= i < |files| ==> Kept(c, files[i])
  }

  ghost function RangesOf(files: seq<LogFile>): seq<Range> {
    seq(|files|, i requires 0 <= i < |files| => Range(files[i].from, files[i].to))
  }

  /** All files hold their lines, and the processed ranges are those of the finished files. */
  ghost predicate Contents(c: Config, fs: Files) {
    AllKept(c, fs.logs) && AllKept(c, fs.disk) && multiset(fs.processed) == multiset(RangesOf(fs.disk))
  }

  lemma AppendKeeps(c: Config, f: LogFile, d: MilestoneData)
    requires Kept(c, f) || (f.lines == [] && f.from == f.to && f.len == 0)
    requires d.index == f.to
    requires f.lines != [] ==> c.lineLen(d) + f.len < c.maxLogSize
    ensures Kept(c, AppendLine(c, f, d))
  {
    var g := AppendLine(c, f, d);
    assert g.lines[..|f.lines|] == f.lines;
  }

  lemma MarkKeeps(c: Config, f: LogFile, upper: nat, finished: bool)
    requires Kept(c, f)
    ensures Kept(c, f.(upper := upper, finished := finished))
  {
  }

  lemma InsertedRanges(rs: seq<Range>, r: Range)
    ensures multiset(InsertedRange(rs, r)) == multiset(rs) + multiset{r}
  {
    var i := PlaceRange(rs, r.start);
    assert rs == rs[..i] + rs[i..];
  }

  lemma PushKeeps(c: Config, fs: Files, f: LogFile)
    requires Contents(c, fs) && Kept(c, f)
    ensures Contents(c, PushToProcessed(fs, f))
  {
    InsertedRanges(fs.processed, Range(f.from, f.to));
    assert RangesOf(fs.disk + [f]) == RangesOf(fs.disk) + [Range(f.from, f.to)];
    MoreKept(c, fs.disk, f);
  }

  lemma MoreKept(c: Config, files: seq<LogFile>, f: LogFile)
    requires AllKept(c, files) && Kept(c, f)
    ensures AllKept(c, files + [f])
  {
  }

  lemma CreateKeeps(c: Config, fs: Files, d: MilestoneData, limit: Option<nat>)
    requires Contents(c, fs)
    ensures Contents(c, CreateAndAppend(c, fs, d, limit))
  {
    var f := AppendLine(c, Create(d.index, limit), d);
    AppendKeeps(c, Create(d.index, limit), d);
    if f.upper == f.to {
      MarkKeeps(c, f, f.upper, true);
      PushKeeps(c, fs, f.(finished := true));
    } else {
      InsertKeeps(c, fs.logs, f);
    }
  }

  lemma InsertKeeps(c: Config, logs: seq<LogFile>, f: LogFile)
    requires AllKept(c, logs) && Kept(c, f)
    ensures AllKept(c, LowerAll(Inserted(logs, f)))
  {
    var r := Inserted(logs, f);
    forall i | 0 <= i < |r|
      ensures Kept(c, LowerAll(r)[i])
    {
      InsertedIs(logs, f, i);
      MarkKeeps(c, r[i], LowerAll(r)[i].upper, LowerAll(r)[i].finished);
    }
  }

  lemma ExtendKeeps(c: Config, fs: Files, i: nat, d: MilestoneData)
    requires Contents(c, fs) && i < |fs.logs| && fs.logs[i].to == d.index
    ensures Contents(c, Extend(c, fs, i, d))
  {
    var f := fs.logs[i];
    assert Kept(c, f);
    if c.lineLen(d) + f.len < c.maxLogSize {
      AppendKeeps(c, f, d);
    } else {
      var t := fs.(logs := fs.logs[i := f.(finished := true)], cleanup := fs.cleanup + [f.from]);
      assert AllKept(c, t.logs);
      CreateKeeps(c, t, d, Some(f.upper));
    }
  }

  lemma WriteKeeps(c: Config, fs: Files, d: MilestoneData, limit: Option<nat>)
    requires Contents(c, fs)
    ensures Contents(c, Write(c, fs, d, limit))
  {
    if FindOpen(fs.logs, d.index) < |fs.logs| {
      ExtendKeeps(c, fs, FindOpen(fs.logs, d.index), d);
    } else {
      CreateKeeps(c, fs, d, limit);
    }
  }

  lemma RetireKeeps(c: Config, fs: Files, i: nat, f: LogFile, cleanup: seq<nat>)
    requires Contents(c, fs) && i < |fs.logs| && Kept(c, f)
    ensures Contents(c, PushToProcessed(fs.(cleanup := cleanup, logs := Without(fs.logs, i)), f))
  {
    var t := fs.(cleanup := cleanup, logs := Without(fs.logs, i));
    forall k | 0 <= k < |t.logs|
      ensures Kept(c, t.logs[k])
    {
      WithoutAt(fs.logs, i, k);
    }
    PushKeeps(c, t, f);
  }

  lemma {:induction false} CleanUpKeeps(c: Config, fs: Files)
    requires Contents(c, fs) && CleanUp(fs).Some?
    ensures Contents(c, CleanUp(fs).value)
    decreases |fs.cleanup|
  {
    if fs.cleanup != [] {
      var n := |fs.cleanup| - 1;
      var i := FindStart(fs.logs, fs.cleanup[n]);
      RetireKeeps(c, fs, i, fs.logs[i], fs.cleanup[..n]);
      CleanUpKeeps(c, PushToProcessed(fs.(cleanup := fs.cleanup[..n], logs := Without(fs.logs, i)), fs.logs[i]));
    }
  }

  lemma CloseKeeps(c: Config, fs: Files, index: nat)
    requires Contents(c, fs)
    ensures Contents(c, CloseLogFile(fs, index))
  {
    var i := FindEnd(fs.logs, index);
    if i < |fs.logs| {
      RetireKeeps(c, fs, i, fs.logs[i].(finished := true), fs.cleanup);
    }
  }

  // ------------------------------------------------------------------------------------------------------------
  // Tiling
  // ------------------------------------------------------------------------------------------------------------

  /** Every written index lies in exactly one file, and no other index in any. */
  ghost predicate Tiles(fs: Files, written: set<nat>) {
    forall x: nat :: Cover(fs, x) == One(x in written)
  }

  lemma {:induction false} NotHeldIsOutside(logs: seq<LogFile>, x: nat)
    ensures Sum(logs, Holding(x)) == 0 <==> forall i :: 0 <= i < |logs| ==> !(logs[i].from <= x < logs[i].to)
    decreases |logs|
  {
    if logs != [] {
      NotHeldIsOutside(logs[1..], x);
      assert forall i :: 0 < i < |logs| ==> logs[i] == logs[1..][i - 1];
      if forall i :: 0 <= i < |logs| ==> !(logs[i].from <= x < logs[i].to) {
        assert forall i :: 0 <= i < |logs[1..]| ==> logs[1..][i] == logs[i + 1];
      }
    }
  }

  /** The whole state of the files, for the indexes and data written. */
  ghost predicate Sound(c: Config, fs: Files, written: set<nat>) {
    Ordered(fs) && Contents(c, fs) && Tiles(fs, written)
  }

  lemma HandleDataCover(c: Config, fs: Files, d: MilestoneData, limit: Option<nat>, written: set<nat>, x: nat)
    requires Tiles(fs, written) && Ordered(fs) && HandleData(c, fs, d, limit).Some?
    ensures Cover(HandleData(c, fs, d, limit).value, x) == One(x in written) + One(x == d.index && Writes(c, fs, d))
  {
    WriteAdds(c, fs, d, limit, x, d);
    CleanUpAdds(Write(c, fs, d, limit), x, d);
    assert Cover(fs, x) == One(x in written);
  }

  /** A line that is written is in the files once more than before, and no other line is touched. */
  lemma HandleDataCopies(c: Config, fs: Files, d: MilestoneData, limit: Option<nat>, y: MilestoneData)
    requires Ordered(fs) && HandleData(c, fs, d, limit).Some?
    ensures Copies(HandleData(c, fs, d, limit).value, y) == Copies(fs, y) + One(y == d && Writes(c, fs, d))
  {
    WriteAdds(c, fs, d, limit, 0, y);
    CleanUpAdds(Write(c, fs, d, limit), 0, y);
  }

  lemma NewIsWritten(c: Config, fs: Files, d: MilestoneData, written: set<nat>)
    requires Tiles(fs, written) && d.index !in written
    ensures Outside(fs.logs, d.index) && Writes(c, fs, d)
  {
    assert Cover(fs, d.index) == 0;
    NotHeldIsOutside(fs.logs, d.index);
    ProcessedCount(fs.processed, d.index);
  }

  /** Writing an index for the first time: the write succeeds and the files tile one index more. */
  lemma HandleDataTiles(c: Config, fs: Files, d: MilestoneData, limit: Option<nat>, written: set<nat>)
    requires Sound(c, fs, written) && d.index !in written
    requires d.index < if limit.Some? then limit.value else MAX_INDEX
    ensures HandleData(c, fs, d, limit).Some?
    ensures Sound(c, HandleData(c, fs, d, limit).value, written + {d.index})
    ensures Writes(c, fs, d)
  {
    NewIsWritten(c, fs, d, written);
    HandleDataOrders(c, fs, d, limit);
    WriteKeeps(c, fs, d, limit);
    CleanUpKeeps(c, Write(c, fs, d, limit));
    var t := HandleData(c, fs, d, limit).value;
    forall x: nat
      ensures Cover(t, x) == One(x in written + {d.index})
    {
      HandleDataCover(c, fs, d, limit, written, x);
    }
  }

  lemma CloseTiles(c: Config, fs: Files, index: nat, written: set<nat>)
    requires Sound(c, fs, written)
    ensures Sound(c, CloseLogFile(fs, index), written)
  {
    CloseOrders(fs, index);
    CloseKeeps(c, fs, index);
    var t := CloseLogFile(fs, index);
    forall x: nat
      ensures Cover(t, x) == One(x in written)
    {
      CloseAdds(fs, index, x, NoData());
      assert Cover(fs, x) == One(x in written);
    }
  }

  ghost function NoData(): MilestoneData {
    NewMilestoneData(0, Syncer)
  }

  /** Exactly when a write breaks the tiling: the line is written although its index already is. A caller can tell from
      the files alone: some active file that still takes lines ends at the index, or no finished file has it. */
  lemma TilingKeptIff(c: Config, fs: Files, d: MilestoneData, limit: Option<nat>, written: set<nat>)
    requires Tiles(fs, written) && Ordered(fs) && HandleData(c, fs, d, limit).Some?
    ensures (exists now :: Tiles(HandleData(c, fs, d, limit).value, now)) <==> !(d.index in written && Writes(c, fs, d))
  {
    var t := HandleData(c, fs, d, limit).value;
    if d.index in written && Writes(c, fs, d) {
      HandleDataCover(c, fs, d, limit, written, d.index);
      assert forall now :: Tiles(t, now) ==> Cover(t, d.index) == One(d.index in now);
    } else {
      var now := if Writes(c, fs, d) then written + {d.index} else written;
      forall x: nat
        ensures Cover(t, x) == One(x in now)
      {
        HandleDataCover(c, fs, d, limit, written, x);
      }
      assert Tiles(t, now);
    }
  }

  /** An index that an active file already has, for instance, is written a second time. */
  lemma DuplicateOverlaps(c: Config, fs: Files, d: MilestoneData, e: MilestoneData)
    requires d.index == 6 && e.index == 5
    requires fs == Files([LogFile(5, 7, 9, 2, false, [e, d])], [], [], [])
    ensures Tiles(fs, {5, 6}) && Ordered(fs)
    ensures HandleData(c, fs, d, Some(7)).Some? && Cover(HandleData(c, fs, d, Some(7)).value, 6) == 2
  {
    assert fs.logs[1..] == [];
    assert FindOpen(fs.logs, 6) == 1;
    assert Write(c, fs, d, Some(7)) == PushToProcessed(fs, AppendLine(c, Create(6, Some(7)), d).(finished := true));
    forall x: nat
      ensures Cover(fs, x) == One(x in {5, 6})
    {
      assert Sum(fs.logs, Holding(x)) == Holding(x)(fs.logs[0]) + Sum(fs.logs[1..], Holding(x));
    }
    HandleDataCover(c, fs, d, Some(7), {5, 6}, 6);
  }

  // ------------------------------------------------------------------------------------------------------------
  // The buffer and the frontier
  // ------------------------------------------------------------------------------------------------------------

  ghost function IndexSet(news: seq<MilestoneData>): set<nat> {
    set k | 0 <= k < |news| :: news[k].index
  }

  /** Everything written lies below the frontier. */
  ghost predicate Good(c: Config, s: State, written: set<nat>) {
    && Sound(c, s.files, written)
    && (forall x :: x in written ==> x < s.next)
    && Heap.Sorted(s.heap)
    && (forall i :: 0 <= i < |s.heap| ==> s.heap[i].index < MAX_INDEX)
  }

  /** The index due after the first `k` data. */
  ghost function DueAt(news: seq<MilestoneData>, next: nat, k: nat): nat
    requires k <= |news|
  {
    if k == 0 then next else news[k - 1].index + 1
  }

  /** The data written as number `k` continues the ones before it, or jumps a hole because too many wait. */
  ghost predicate TurnAt(news: seq<MilestoneData>, left: seq<nat>, next: nat, solidifiers: nat, k: nat)
    requires k < |news| == |left|
  {
    news[k].index == DueAt(news, next, k) || (news[k].index > DueAt(news, next, k) && left[k] > solidifiers)
  }

  /** Data written one after the other from `next` on: strictly increasing, with a hole only where more than
      `solidifiers` data were still buffered; `left` says how many were. */
  ghost predicate InTurn(news: seq<MilestoneData>, left: seq<nat>, next: nat, solidifiers: nat) {
    |left| == |news| && forall k :: 0 <= k < |news| ==> TurnAt(news, left, next, solidifiers, k)
  }

  ghost function NextAfter(news: seq<MilestoneData>, next: nat): nat {
    if news == [] then next else news[|news| - 1].index + 1
  }

  /** From one state to another exactly the lines `news` were written. */
  ghost predicate Wrote(fs: Files, t: Files, news: seq<MilestoneData>) {
    forall y :: Copies(t, y) == Copies(fs, y) + multiset(news)[y]
  }

  // ------------------------------------------------------------------------------------------------------------
  // The buffer on its own: which lines are written, whatever the files look like
  // ------------------------------------------------------------------------------------------------------------

  /** What an event or a run makes of the buffer: the data written and those dropped, in order, what stays buffered, and
      the next index. */
  datatype Turn = Turn(lines: seq<MilestoneData>, dropped: seq<MilestoneData>, heap: seq<MilestoneData>, next: nat)

  /** Buffered data are written in order; those below the next index are dropped; behind a hole they wait, unless more than
      `solidifiers` others do. */
  function DrainTurn(heap: seq<MilestoneData>, next: nat, solidifiers: nat): Turn
    decreases |heap|
  {
    if heap == [] then Turn([], [], [], next)
    else if heap[0].index < next then
      var t := DrainTurn(heap[1..], next, solidifiers);
      t.(dropped := [heap[0]] + t.dropped)
    else if heap[0].index > next && |heap| - 1 <= solidifiers then Turn([], [], heap, next)
    else
      var t := DrainTurn(heap[1..], heap[0].index + 1, solidifiers);
      t.(lines := [heap[0]] + t.lines)
  }

  /** Data of the Syncer are written at once up to the next index, and buffered above it; new data are buffered and as many
      of them written as can be. */
  function EventTurn(heap: seq<MilestoneData>, next: nat, solidifiers: nat, e: ArchiverEvent): Turn {
    match e
    case Close(_) => Turn([], [], heap, next)
    case Data(d, _) =>
      if !d.createdBy.Syncer? then DrainTurn(Heap.Push(heap, d), next, solidifiers)
      else if d.index > next then Turn([], [], Heap.Push(heap, d), next)
      else Turn([d], [], heap, if d.index == next then next + 1 else next)
  }

  function RunTurn(heap: seq<MilestoneData>, next: nat, solidifiers: nat, events: seq<ArchiverEvent>): Turn
    decreases |events|
  {
    if events == [] then Turn([], [], heap, next)
    else
      var t := EventTurn(heap, next, solidifiers, events[0]);
      var u := RunTurn(t.heap, t.next, solidifiers, events[1..]);
      u.(lines := t.lines + u.lines, dropped := t.dropped + u.dropped)
  }

  /** The data among the events. */
  function DataOf(events: seq<ArchiverEvent>): seq<MilestoneData> {
    if events == [] then [] else (if events[0].Data? then [events[0].data] else []) + DataOf(events[1..])
  }

  /** How often `d` was written, dropped, or is still buffered. */
  ghost function Amount(t: Turn, d: MilestoneData): nat {
    multiset(t.lines)[d] + multiset(t.dropped)[d] + multiset(t.heap)[d]
  }

  lemma ConsCount(a: MilestoneData, ds: seq<MilestoneData>, d: MilestoneData)
    ensures multiset([a] + ds)[d] == multiset(ds)[d] + One(a == d)
  {
  }

  lemma ConcatCount(a: seq<MilestoneData>, b: seq<MilestoneData>, d: MilestoneData)
    ensures multiset(a + b)[d] == multiset(a)[d] + multiset(b)[d]
  {
  }

  lemma AmountMore(t: Turn, a: MilestoneData, d: MilestoneData)
    ensures Amount(t.(dropped := [a] + t.dropped), d) == Amount(t, d) + One(a == d)
    ensures Amount(t.(lines := [a] + t.lines), d) == Amount(t, d) + One(a == d)
  {
    ConsCount(a, t.dropped, d);
    ConsCount(a, t.lines, d);
  }

  lemma HeadCount(heap: seq<MilestoneData>, d: MilestoneData)
    requires heap != []
    ensures multiset(heap)[d] == multiset(heap[1..])[d] + One(heap[0] == d)
  {
    assert heap == [heap[0]] + heap[1..];
    ConsCount(heap[0], heap[1..], d);
  }

  lemma {:induction false} DrainConserves(heap: seq<MilestoneData>, next: nat, solidifiers: nat, d: MilestoneData)
    ensures Amount(DrainTurn(heap, next, solidifiers), d) == multiset(heap)[d]
    decreases |heap|, 1
  {
    if heap != [] {
      if heap[0].index < next {
        DropConserves(heap, next, solidifiers, d);
      } else if heap[0].index == next || |heap| - 1 > solidifiers {
        WriteConserves(heap, next, solidifiers, d);
      }
    }
  }

  lemma {:induction false} DropConserves(heap: seq<MilestoneData>, next: nat, solidifiers: nat, d: MilestoneData)
    requires heap != [] && heap[0].index < next
    ensures Amount(DrainTurn(heap, next, solidifiers), d) == multiset(heap)[d]
    decreases |heap|, 0
  {
    var t := DrainTurn(heap[1..], next, solidifiers);
    DrainConserves(heap[1..], next, solidifiers, d);
    HeadCount(heap, d);
    AmountMore(t, heap[0], d);
    assert DrainTurn(heap, next, solidifiers) == t.(dropped := [heap[0]] + t.dropped);
  }

  lemma {:induction false} WriteConserves(heap: seq<MilestoneData>, next: nat, solidifiers: nat, d: MilestoneData)
    requires heap != [] && heap[0].index >= next && (heap[0].index == next || |heap| - 1 > solidifiers)
    ensures Amount(DrainTurn(heap, next, solidifiers), d) == multiset(heap)[d]
    decreases |heap|, 0
  {
    var t := DrainTurn(heap[1..], heap[0].index + 1, solidifiers);
    DrainConserves(heap[1..], heap[0].index + 1, solidifiers, d);
    HeadCount(heap, d);
    AmountMore(t, heap[0], d);
    assert DrainTurn(heap, next, solidifiers) == t.(lines := [heap[0]] + t.lines);
  }

  lemma PushAdds(heap: seq<MilestoneData>, a: MilestoneData, d: MilestoneData)
    ensures multiset(Heap.Push(heap, a))[d] == multiset(heap)[d] + One(a == d)
  {
    var i := Heap.Slot(heap, a.index);
    assert heap == heap[..i] + heap[i..];
    ConcatCount(heap[..i], heap[i..], d);
    ConcatCount(heap[..i], [a], d);
    ConcatCount(heap[..i] + [a], heap[i..], d);
  }

  lemma EventConserves(heap: seq<MilestoneData>, next: nat, solidifiers: nat, e: ArchiverEvent, d: MilestoneData)
    ensures Amount(EventTurn(heap, next, solidifiers, e), d) == multiset(heap)[d] + One(e.Data? && e.data == d)
  {
    if e.Data? {
      PushAdds(heap, e.data, d);
      DrainConserves(Heap.Push(heap, e.data), next, solidifiers, d);
    }
  }

  /** All data that arrive are written, dropped because they came too late, or still buffered, each once. */
  lemma {:induction false} TurnConserves(heap: seq<MilestoneData>, next: nat, solidifiers: nat, events: seq<ArchiverEvent>, d: MilestoneData)
    ensures Amount(RunTurn(heap, next, solidifiers, events), d) == multiset(heap)[d] + multiset(DataOf(events))[d]
    decreases |events|
  {
    if events != [] {
      var e, t := events[0], EventTurn(heap, next, solidifiers, events[0]);
      var u := RunTurn(t.heap, t.next, solidifiers, events[1..]);
      EventConserves(heap, next, solidifiers, e, d);
      TurnConserves(t.heap, t.next, solidifiers, events[1..], d);
      ConcatCount(t.lines, u.lines, d);
      ConcatCount(t.dropped, u.dropped, d);
      ConcatCount(if e.Data? then [e.data] else [], DataOf(events[1..]), d);
    }
  }

  ghost predicate Below(ds: seq<MilestoneData>, bound: nat) {
    forall i :: 0 <= i < |ds| ==> ds[i].index < bound
  }

  /** What was written or dropped lies below the next index, which never moves back. */
  ghost predicate MovesOn(t: Turn, next: nat) {
    next <= t.next && Below(t.lines, t.next) && Below(t.dropped, t.next)
  }

  lemma {:induction false} DrainMovesOn(heap: seq<MilestoneData>, next: nat, solidifiers: nat)
    ensures MovesOn(DrainTurn(heap, next, solidifiers), next)
    decreases |heap|
  {
    if heap != [] {
      if heap[0].index < next {
        DrainMovesOn(heap[1..], next, solidifiers);
      } else if heap[0].index == next || |heap| - 1 > solidifiers {
        DrainMovesOn(heap[1..], heap[0].index + 1, solidifiers);
      }
    }
  }

  lemma {:induction false} TurnMovesOn(heap: seq<MilestoneData>, next: nat, solidifiers: nat, events: seq<ArchiverEvent>)
    ensures MovesOn(RunTurn(heap, next, solidifiers, events), next)
    decreases |events|
  {
    if events != [] {
      var e, t := events[0], EventTurn(heap, next, solidifiers, events[0]);
      if e.Data? && !e.data.createdBy.Syncer? { DrainMovesOn(Heap.Push(heap, e.data), next, solidifiers); }
      TurnMovesOn(t.heap, t.next, solidifiers, events[1..]);
    }
  }

  /** Data of the Syncer that are not above the next index when they arrive are written. */
  lemma {:induction false} AcceptedIsWritten(heap: seq<MilestoneData>, next: nat, solidifiers: nat, events: seq<ArchiverEvent>, k: nat)
    requires k < |events| && events[k].Data? && events[k].data.createdBy.Syncer?
    requires events[k].data.index <= RunTurn(heap, next, solidifiers, events[..k]).next
    ensures events[k].data in RunTurn(heap, next, solidifiers, events).lines
    decreases |events|
  {
    if k > 0 {
      var t := EventTurn(heap, next, solidifiers, events[0]);
      assert events[..k][1..] == events[1..][..k - 1];
      AcceptedIsWritten(t.heap, t.next, solidifiers, events[1..], k - 1);
    }
  }

  /** The state after an event, or a drain, is that of the buffer on its own. */
  ghost predicate Follows(t: State, news: seq<MilestoneData>, turn: Turn) {
    news == turn.lines && t.heap == turn.heap && t.next == turn.next
  }

  lemma WriteAndMoveKeeps(c: Config, s: State, d: MilestoneData, limit: Option<nat>, next: nat, written: set<nat>)
    requires Good(c, s, written) && d.index !in written && d.index < next && s.next <= next
    requires d.index < if limit.Some? then limit.value else MAX_INDEX
    ensures WriteAndMove(c, s, d, limit, next).Some?
    ensures var t := WriteAndMove(c, s, d, limit, next).value;
            && Good(c, t, written + {d.index}) && t.next == next && t.heap == s.heap
            && Wrote(s.files, t.files, [d])
  {
    HandleDataTiles(c, s.files, d, limit, written);
    HandleDataWrote(c, s.files, d, limit);
    MovedIsGood(c, s, HandleData(c, s.files, d, limit).value, next, written, d.index);
  }

  lemma MovedIsGood(c: Config, s: State, fs: Files, next: nat, written: set<nat>, index: nat)
    requires Good(c, s, written) && Sound(c, fs, written + {index}) && index < next && s.next <= next
    ensures Good(c, s.(files := fs, next := next), written + {index})
  {
  }

  lemma HandleDataWrote(c: Config, fs: Files, d: MilestoneData, limit: Option<nat>)
    requires Ordered(fs) && Writes(c, fs, d) && HandleData(c, fs, d, limit).Some?
    ensures Wrote(fs, HandleData(c, fs, d, limit).value, [d])
  {
    forall y
      ensures Copies(HandleData(c, fs, d, limit).value, y) == Copies(fs, y) + multiset([d])[y]
    {
      HandleDataCopies(c, fs, d, limit, y);
    }
  }

  lemma WroteMore(a: Files, b: Files, t: Files, first: MilestoneData, rest: seq<MilestoneData>)
    requires Wrote(a, b, [first]) && Wrote(b, t, rest)
    ensures Wrote(a, t, [first] + rest)
  {
    forall y
      ensures Copies(t, y) == Copies(a, y) + multiset([first] + rest)[y]
    {
      assert multiset([first] + rest) == multiset([first]) + multiset(rest);
      assert Copies(b, y) == Copies(a, y) + multiset([first])[y];
    }
  }

  lemma CloseWrote(fs: Files, index: nat, t: Files, news: seq<MilestoneData>)
    requires Wrote(CloseLogFile(fs, index), t, news)
    ensures Wrote(fs, t, news)
  {
    forall y
      ensures Copies(t, y) == Copies(fs, y) + multiset(news)[y]
    {
      CloseAdds(fs, index, 0, y);
    }
  }

  lemma IndexSetCons(first: MilestoneData, rest: seq<MilestoneData>)
    ensures IndexSet([first] + rest) == {first.index} + IndexSet(rest)
  {
    var all := [first] + rest;
    assert forall k :: 0 <= k < |rest| ==> rest[k] == all[k + 1];
    assert all[0].index in IndexSet(all);
  }

  lemma TurnAtCons(first: MilestoneData, rest: seq<MilestoneData>, n: nat, left: seq<nat>, next: nat, solidifiers: nat, k: nat)
    requires k < |rest| == |left| && TurnAt(rest, left, first.index + 1, solidifiers, k)
    ensures TurnAt([first] + rest, [n] + left, next, solidifiers, k + 1)
  {
    assert DueAt([first] + rest, next, k + 1) == DueAt(rest, first.index + 1, k);
  }

  lemma InTurnCons(first: MilestoneData, rest: seq<MilestoneData>, n: nat, left: seq<nat>, next: nat, solidifiers: nat)
    requires InTurn(rest, left, first.index + 1, solidifiers)
    requires first.index == next || (first.index > next && n > solidifiers)
    ensures InTurn([first] + rest, [n] + left, next, solidifiers)
    ensures NextAfter([first] + rest, next) == NextAfter(rest, first.index + 1)
  {
    forall k | 0 <= k <= |rest|
      ensures TurnAt([first] + rest, [n] + left, next, solidifiers, k)
    {
      if k > 0 { TurnAtCons(first, rest, n, left, next, solidifiers, k - 1); }
    }
  }

  /** Writing the lowest of the buffered data, after closing the file in front of a hole. */
  ghost function WriteNext(c: Config, s: State): Option<State>
    requires s.heap != []
  {
    var d, t := s.heap[0], s.(heap := s.heap[1..]);
    WriteAndMove(c, if d.index > s.next then t.(files := CloseLogFile(t.files, s.next)) else t, d, None, d.index + 1)
  }

  lemma PopKeepsGood(c: Config, s: State, written: set<nat>)
    requires Good(c, s, written) && s.heap != []
    ensures Good(c, s.(heap := s.heap[1..]), written)
  {
  }

  lemma CloseKeepsGood(c: Config, s: State, index: nat, written: set<nat>)
    requires Good(c, s, written)
    ensures Good(c, s.(files := CloseLogFile(s.files, index)), written)
  {
    CloseTiles(c, s.files, index, written);
  }

  lemma WriteNextKeeps(c: Config, s: State, written: set<nat>)
    requires Good(c, s, written) && s.heap != [] && s.heap[0].index >= s.next
    ensures WriteNext(c, s).Some?
    ensures var v := WriteNext(c, s).value;
            && Good(c, v, written + {s.heap[0].index}) && v.next == s.heap[0].index + 1 && v.heap == s.heap[1..]
            && Wrote(s.files, v.files, [s.heap[0]])
  {
    var d, t := s.heap[0], s.(heap := s.heap[1..]);
    var u := if d.index > s.next then t.(files := CloseLogFile(t.files, s.next)) else t;
    PopKeepsGood(c, s, written);
    CloseKeepsGood(c, t, s.next, written);
    WriteAndMoveKeeps(c, u, d, None, d.index + 1, written);
    if d.index > s.next { CloseWrote(t.files, s.next, WriteNext(c, s).value.files, [d]); }
  }

  ghost predicate DrainsTo(c: Config, s: State, t: State) {
    Drain(c, s, None) == Some(t)
  }

  lemma DrainGoesOn(c: Config, s: State, t: State)
    requires s.heap != [] && s.heap[0].index >= s.next && (s.heap[0].index > s.next ==> |s.heap| - 1 > c.solidifiers)
    requires WriteNext(c, s).Some? && DrainsTo(c, WriteNext(c, s).value, t)
    ensures DrainsTo(c, s, t)
  {
  }

  ghost predicate Settled(c: Config, s: State) {
    s.heap == [] || (s.heap[0].index > s.next && |s.heap| <= c.solidifiers + 1)
  }

  /** The state after draining: everything written is in turn. */
  ghost predicate Drained(c: Config, s: State, t: State, written: set<nat>, news: seq<MilestoneData>, left: seq<nat>) {
    && Good(c, t, written + IndexSet(news))
    && InTurn(news, left, s.next, c.solidifiers)
    && t.next == NextAfter(news, s.next) >= s.next
    && Wrote(s.files, t.files, news)
    && Settled(c, t)
    && Follows(t, news, DrainTurn(s.heap, s.next, c.solidifiers))
  }

  lemma DrainedCons(c: Config, s: State, v: State, t: State, written: set<nat>, news: seq<MilestoneData>, left: seq<nat>)
    requires s.heap != [] && s.heap[0].index >= s.next && (s.heap[0].index > s.next ==> |s.heap| - 1 > c.solidifiers)
    requires v.next == s.heap[0].index + 1 && v.heap == s.heap[1..] && Wrote(s.files, v.files, [s.heap[0]])
    requires Drained(c, v, t, written + {s.heap[0].index}, news, left)
    ensures Drained(c, s, t, written, [s.heap[0]] + news, [|s.heap| - 1] + left)
  {
    var d := s.heap[0];
    WroteMore(s.files, v.files, t.files, d, news);
    IndexSetCons(d, news);
    assert written + {d.index} + IndexSet(news) == written + IndexSet([d] + news);
    InTurnCons(d, news, |s.heap| - 1, left, s.next, c.solidifiers);
  }

  lemma NothingDrained(c: Config, s: State, written: set<nat>)
    requires Good(c, s, written) && Settled(c, s)
    ensures DrainsTo(c, s, s) && Drained(c, s, s, written, [], [])
  {
    assert written + IndexSet([]) == written;
  }

  /** Data below the frontier are dropped. */
  lemma DrainDrops(c: Config, s: State, t: State)
    requires s.heap != [] && s.heap[0].index < s.next
    requires DrainsTo(c, s.(heap := s.heap[1..]), t)
    ensures DrainsTo(c, s, t)
  {
  }

  lemma DrainedAlike(c: Config, s: State, u: State, t: State, written: set<nat>, news: seq<MilestoneData>, left: seq<nat>)
    requires Drained(c, u, t, written, news, left) && u.files == s.files && u.next == s.next
    requires s.heap != [] && u.heap == s.heap[1..] && s.heap[0].index < s.next
    ensures Drained(c, s, t, written, news, left)
  {
  }

  /** Main step of the incoming path: buffered data are written once each, in increasing order from the frontier on; a
      hole is jumped only when too many data wait; what stays behind waits for a hole. */
  lemma {:induction false} DrainWritesInTurn(c: Config, s: State, written: set<nat>)
    returns (t: State, news: seq<MilestoneData>, left: seq<nat>)
    requires Good(c, s, written)
    ensures DrainsTo(c, s, t) && Drained(c, s, t, written, news, left)
    decreases |s.heap|, 1
  {
    if s.heap == [] || (s.heap[0].index > s.next && |s.heap| - 1 <= c.solidifiers) {
      NothingDrained(c, s, written);
      t, news, left := s, [], [];
    } else if s.heap[0].index < s.next {
      t, news, left := DrainAfterDrop(c, s, written);
    } else {
      t, news, left := DrainAfterWrite(c, s, written);
    }
  }

  lemma {:induction false} DrainAfterDrop(c: Config, s: State, written: set<nat>)
    returns (t: State, news: seq<MilestoneData>, left: seq<nat>)
    requires Good(c, s, written) && s.heap != [] && s.heap[0].index < s.next
    ensures DrainsTo(c, s, t) && Drained(c, s, t, written, news, left)
    decreases |s.heap|, 0
  {
    var u := s.(heap := s.heap[1..]);
    PopKeepsGood(c, s, written);
    t, news, left := DrainWritesInTurn(c, u, written);
    DrainDrops(c, s, t);
    DrainedAlike(c, s, u, t, written, news, left);
  }

  lemma {:induction false} DrainAfterWrite(c: Config, s: State, written: set<nat>)
    returns (t: State, news: seq<MilestoneData>, left: seq<nat>)
    requires Good(c, s, written) && s.heap != [] && s.heap[0].index >= s.next
    requires s.heap[0].index > s.next ==> |s.heap| - 1 > c.solidifiers
    ensures DrainsTo(c, s, t) && Drained(c, s, t, written, news, left)
    decreases |s.heap|, 0
  {
    WriteNextKeeps(c, s, written);
    var v := WriteNext(c, s).value;
    t, news, left := DrainWritesInTurn(c, v, written + {s.heap[0].index});
    DrainGoesOn(c, s, t);
    DrainedCons(c, s, v, t, written, news, left);
    news, left := [s.heap[0]] + news, [|s.heap| - 1] + left;
  }

  // ------------------------------------------------------------------------------------------------------------
  // Every event, every run
  // ------------------------------------------------------------------------------------------------------------

  /** What the code relies on: milestone data of the Syncer below the frontier are not in a file yet and limited above
      their index; new data come without a limit; indexes are below u32::MAX. */
  ghost predicate Admissible(s: State, e: ArchiverEvent) {
    e.Data? ==>
      && e.data.index < MAX_INDEX
      && (if e.data.createdBy.Syncer?
          then e.data.index < s.next ==> Cover(s.files, e.data.index) == 0 && (e.upperLimit.Some? ==> e.data.index < e.upperLimit.value)
          else e.upperLimit.None?)
  }

  lemma BufferKeepsGood(c: Config, s: State, d: MilestoneData, written: set<nat>)
    requires Good(c, s, written) && d.index < MAX_INDEX
    ensures Good(c, s.(heap := Heap.Push(s.heap, d)), written)
  {
    Heap.PushKeepsOrder(s.heap, d);
    var i, r := Heap.Slot(s.heap, d.index), Heap.Push(s.heap, d);
    assert forall k :: 0 <= k < |r| ==> r[k] == if k < i then s.heap[k] else if k == i then d else s.heap[k - 1];
  }

  /** The lines an event writes: at most one from the Syncer below the frontier, else data in turn from the frontier on. */
  ghost predicate WritesInTurn(c: Config, s: State, t: State, news: seq<MilestoneData>, left: seq<nat>) {
    && (InTurn(news, left, s.next, c.solidifiers) || (|news| == 1 && news[0].createdBy.Syncer? && news[0].index < s.next))
    && s.next <= t.next
    && Wrote(s.files, t.files, news)
  }

  lemma SyncerDataKeepsGood(c: Config, s: State, d: MilestoneData, limit: Option<nat>, written: set<nat>)
    returns (news: seq<MilestoneData>, left: seq<nat>)
    requires Good(c, s, written) && Admissible(s, Data(d, limit)) && d.createdBy.Syncer?
    ensures Step(c, s, Data(d, limit)).Some?
    ensures var t := Step(c, s, Data(d, limit)).value;
            && Good(c, t, written + IndexSet(news)) && WritesInTurn(c, s, t, news, left)
            && Follows(t, news, EventTurn(s.heap, s.next, c.solidifiers, Data(d, limit)))
  {
    if d.index > s.next {
      BufferKeepsGood(c, s, d, written);
      news, left := [], [];
      assert written + IndexSet([]) == written;
    } else {
      news, left := [d], [0];
      assert Cover(s.files, d.index) == One(d.index in written);
      if d.index < s.next { WriteAndMoveKeeps(c, s, d, limit, s.next, written); }
      else { WriteAndMoveKeeps(c, s, d, None, s.next + 1, written); }
      assert IndexSet([d]) == {d.index} by { IndexSetCons(d, []); assert [d] + [] == [d]; }
    }
  }

  /** Main step: every admissible event succeeds; the files stay in order, keep their lines and tile exactly the indexes
      written; the frontier never moves back; and what is written is written in turn. */
  lemma StepKeepsGood(c: Config, s: State, e: ArchiverEvent, written: set<nat>)
    returns (news: seq<MilestoneData>, left: seq<nat>)
    requires Good(c, s, written) && Admissible(s, e)
    ensures Step(c, s, e).Some?
    ensures Good(c, Step(c, s, e).value, written + IndexSet(news)) && WritesInTurn(c, s, Step(c, s, e).value, news, left)
    ensures Follows(Step(c, s, e).value, news, EventTurn(s.heap, s.next, c.solidifiers, e))
  {
    news, left := [], [];
    assert written + IndexSet([]) == written;
    match e
    case Close(index) =>
      CloseKeepsGood(c, s, index, written);
      forall y
        ensures Copies(CloseLogFile(s.files, index), y) == Copies(s.files, y)
      {
        CloseAdds(s.files, index, 0, y);
      }
    case Data(d, limit) =>
      if d.createdBy.Syncer? {
        news, left := SyncerDataKeepsGood(c, s, d, limit, written);
      } else {
        BufferKeepsGood(c, s, d, written);
        var t: State;
        t, news, left := DrainWritesInTurn(c, s.(heap := Heap.Push(s.heap, d)), written);
      }
  }

  ghost predicate AdmissibleRun(c: Config, s: State, events: seq<ArchiverEvent>)
    decreases |events|
  {
    events == [] ||
    (Admissible(s, events[0]) && (Step(c, s, events[0]).Some? ==> AdmissibleRun(c, Step(c, s, events[0]).value, events[1..])))
  }

  ghost function Run(c: Config, s: State, events: seq<ArchiverEvent>): Option<State>
    decreases |events|
  {
    if events == [] then Some(s)
    else
      match Step(c, s, events[0])
      case None => None
      case Some(t) => Run(c, t, events[1..])
  }

  ghost predicate RanTo(c: Config, s: State, events: seq<ArchiverEvent>, written: set<nat>) {
    var end, r := Run(c, s, events), RunTurn(s.heap, s.next, c.solidifiers, events);
    && end.Some? && Good(c, end.value, written + IndexSet(r.lines))
    && Wrote(s.files, end.value.files, r.lines) && Follows(end.value, r.lines, r)
  }

  lemma RunOneMore(c: Config, s: State, events: seq<ArchiverEvent>, written: set<nat>, news: seq<MilestoneData>)
    requires events != [] && Step(c, s, events[0]).Some?
    requires Follows(Step(c, s, events[0]).value, news, EventTurn(s.heap, s.next, c.solidifiers, events[0]))
    requires Wrote(s.files, Step(c, s, events[0]).value.files, news)
    requires RanTo(c, Step(c, s, events[0]).value, events[1..], written + IndexSet(news))
    ensures RanTo(c, s, events, written)
  {
    var t := Step(c, s, events[0]).value;
    var rest := RunTurn(t.heap, t.next, c.solidifiers, events[1..]).lines;
    WroteMoreLines(s.files, t.files, Run(c, t, events[1..]).value.files, news, rest);
    IndexSetConcat(news, rest);
    assert written + IndexSet(news) + IndexSet(rest) == written + IndexSet(news + rest);
  }

  lemma WroteMoreLines(a: Files, b: Files, t: Files, first: seq<MilestoneData>, rest: seq<MilestoneData>)
    requires Wrote(a, b, first) && Wrote(b, t, rest)
    ensures Wrote(a, t, first + rest)
  {
    forall y
      ensures Copies(t, y) == Copies(a, y) + multiset(first + rest)[y]
    {
      assert multiset(first + rest) == multiset(first) + multiset(rest);
      assert Copies(b, y) == Copies(a, y) + multiset(first)[y];
    }
  }

  lemma IndexSetConcat(a: seq<MilestoneData>, b: seq<MilestoneData>)
    ensures IndexSet(a + b) == IndexSet(a) + IndexSet(b)
  {
    var all := a + b;
    forall x | x in IndexSet(a) + IndexSet(b)
      ensures x in IndexSet(all)
    {
      if x in IndexSet(a) {
        var k :| 0 <= k < |a| && a[k].index == x;
        assert all[k].index == x;
      } else {
        var k :| 0 <= k < |b| && b[k].index == x;
        assert all[|a| + k].index == x;
      }
    }
  }

  lemma {:induction false} RunKeepsGood(c: Config, s: State, events: seq<ArchiverEvent>, written: set<nat>)
    requires Good(c, s, written) && AdmissibleRun(c, s, events)
    ensures RanTo(c, s, events, written)
    decreases |events|
  {
    if events == [] {
      assert written + IndexSet([]) == written;
    } else {
      var news, left := StepKeepsGood(c, s, events[0], written);
      RunKeepsGood(c, Step(c, s, events[0]).value, events[1..], written + IndexSet(news));
      RunOneMore(c, s, events, written, news);
    }
  }

  /** The Archiver once the frontier was announced. */
  function Opened(next: nat): State {
    State(Files([], [], [], []), [], next)
  }

  lemma OpenedIsGood(c: Config, next: nat)
    ensures Good(c, Opened(next), {})
  {
    assert RangesOf([]) == [];
    assert Tiles(Opened(next).files, {});
  }

  /** Main result: after any run of admissible events the Archiver has not failed. The data written are those the buffer on
      its own lets through (`RunTurn`): each of them is in the files once, line by line, and nothing else is; every index
      written lies in exactly one file, and no other index in any; active and finished files are in order and hold their
      lines; and buffer and frontier are where the buffer on its own leaves them. */
  lemma FilesTile(c: Config, next: nat, events: seq<ArchiverEvent>)
    requires AdmissibleRun(c, Opened(next), events)
    ensures var end, r := Run(c, Opened(next), events), RunTurn([], next, c.solidifiers, events);
            && end.Some? && Ordered(end.value.files) && Contents(c, end.value.files)
            && Tiles(end.value.files, IndexSet(r.lines))
            && (forall d :: Copies(end.value.files, d) == multiset(r.lines)[d])
            && end.value.heap == r.heap && end.value.next == r.next
            && (forall d :: Amount(r, d) == multiset(DataOf(events))[d]) && MovesOn(r, next)
  {
    var s, r := Opened(next), RunTurn([], next, c.solidifiers, events);
    OpenedIsGood(c, next);
    RunKeepsGood(c, s, events, {});
    assert {} + IndexSet(r.lines) == IndexSet(r.lines);
    forall d
      ensures Amount(r, d) == multiset(DataOf(events))[d]
    {
      TurnConserves([], next, c.solidifiers, events, d);
    }
    TurnMovesOn([], next, c.solidifiers, events);
    forall d
      ensures Copies(s.files, d) == 0
    {
    }
  }
}
