/** Where a line goes: which file grows, when a new one is begun and how far that may grow, and which files are finished. */
module ArchiverGrowth {
  import opened Types
  import opened Ranges
  import opened ArchiverSpec
  import opened ArchiverFiles
  import opened ArchiverProofs

  /** The line continues the file, and may. */
  ghost predicate Continues(f: LogFile, index: nat) {
    f.to == index < f.upper
  }

  ghost predicate HasRoom(c: Config, f: LogFile, d: MilestoneData) {
    f.len + c.lineLen(d) < c.maxLogSize
  }

  /** The file with one more line. */
  function Longer(c: Config, f: LogFile, d: MilestoneData): LogFile {
    LogFile(f.from, f.to + 1, f.upper, f.len + c.lineLen(d), f.finished, f.lines + [d])
  }

  /** The finished files: one more, and its range is known. */
  ghost predicate Retired(fs: Files, t: Files, f: LogFile) {
    && f.finished && t.disk == fs.disk + [f]
    && forall x: nat :: InProcessed(t.processed, x) <==> InProcessed(fs.processed, x) || f.from <= x < f.to
  }

  lemma RangeIsKnown(rs: seq<Range>, r: Range, x: nat)
    ensures InProcessed(InsertedRange(rs, r), x) <==> InProcessed(rs, x) || r.Has(x)
  {
    InRangesInserted(rs, r, x);
    ProcessedCount(rs, x);
    ProcessedCount(InsertedRange(rs, r), x);
  }

  lemma PushRetires(fs: Files, f: LogFile)
    requires f.finished
    ensures var t := PushToProcessed(fs, f); Retired(fs, t, f) && t.logs == fs.logs && t.cleanup == fs.cleanup
  {
    forall x: nat
      ensures InProcessed(PushToProcessed(fs, f).processed, x) <==> InProcessed(fs.processed, x) || f.from <= x < f.to
    {
      RangeIsKnown(fs.processed, Range(f.from, f.to), x);
    }
  }

  lemma OnlyStart(logs: seq<LogFile>, i: nat)
    requires Rising(logs) && i < |logs|
    ensures FindStart(logs, logs[i].from) == i
  {
  }

  /** One file is finished and waits: it is taken out. */
  lemma CleansUpOne(fs: Files, i: nat)
    requires Rising(fs.logs) && i < |fs.logs| && fs.cleanup == [fs.logs[i].from] && fs.logs[i].finished
    ensures CleanUp(fs).Some?
    ensures var t := CleanUp(fs).value; t.logs == Without(fs.logs, i) && t.cleanup == [] && Retired(fs, t, fs.logs[i])
  {
    OnlyStart(fs.logs, i);
    assert fs.cleanup[..0] == [];
    PushRetires(fs.(cleanup := [], logs := Without(fs.logs, i)), fs.logs[i]);
  }

  lemma OpenIs(logs: seq<LogFile>, index: nat, i: nat)
    requires Sorted(logs) && i < |logs| && Continues(logs[i], index)
    ensures FindOpen(logs, index) == i
  {
  }

  lemma ReplacedRises(logs: seq<LogFile>, i: nat, g: LogFile)
    requires Rising(logs) && i < |logs| && g.from == logs[i].from
    ensures Rising(logs[i := g])
  {
  }

  /** A line that continues a file with room for it is appended to this file, and nothing else changes; a file that has
      reached its limit is finished. */
  lemma LineIsAppended(c: Config, fs: Files, d: MilestoneData, limit: Option<nat>, i: nat)
    requires Ordered(fs) && i < |fs.logs| && Continues(fs.logs[i], d.index) && HasRoom(c, fs.logs[i], d)
    ensures HandleData(c, fs, d, limit).Some?
    ensures var t, g := HandleData(c, fs, d, limit).value, Longer(c, fs.logs[i], d);
            if g.to < g.upper then t == fs.(logs := fs.logs[i := g])
            else t.logs == Without(fs.logs, i) && t.cleanup == [] && Retired(fs, t, g.(finished := true))
  {
    OpenIs(fs.logs, d.index, i);
    SortedRises(fs.logs);
    var g := Longer(c, fs.logs[i], d);
    if g.to == g.upper {
      var u := fs.(logs := fs.logs[i := g.(finished := true)], cleanup := [] + [g.from]);
      ReplacedRises(fs.logs, i, g.(finished := true));
      CleansUpOne(u, i);
      assert Write(c, fs, d, limit) == u;
      assert Without(u.logs, i) == Without(fs.logs, i);
    }
  }

  /** A line whose index lies in a finished file is dropped, unless a file waits for it. */
  lemma KnownIsDropped(c: Config, fs: Files, d: MilestoneData, limit: Option<nat>)
    requires Ordered(fs) && InProcessed(fs.processed, d.index)
    requires forall i :: 0 <= i < |fs.logs| ==> !Continues(fs.logs[i], d.index)
    ensures HandleData(c, fs, d, limit) == Some(fs)
  {
  }

  // ------------------------------------------------------------------------------------------------------------
  // New files
  // ------------------------------------------------------------------------------------------------------------

  /** A file with one line, which may grow up to `upper`. */
  function FileOf(c: Config, d: MilestoneData, upper: nat): LogFile {
    LogFile(d.index, d.index + 1, upper, c.lineLen(d), upper == d.index + 1, [d])
  }

  /** The files up to position `p` begin at or before the index, those from there on after it. */
  ghost predicate Divides(logs: seq<LogFile>, index: nat, p: nat) {
    p <= |logs| && (forall k :: 0 <= k < p ==> logs[k].from <= index) && (p < |logs| ==> index < logs[p].from)
  }

  /** How far a new file may grow: to its limit, and not beyond the start of the next file. */
  function Bound(logs: seq<LogFile>, p: nat, limit: Option<nat>): nat {
    var base := if limit.Some? then limit.value else MAX_INDEX;
    if p < |logs| && logs[p].from < base then logs[p].from else base
  }

  /** The files in front of a new one may not grow beyond it. */
  function Cut(logs: seq<LogFile>, index: nat): (r: seq<LogFile>)
    ensures |r| == |logs|
    ensures forall k :: 0 <= k < |logs| ==> r[k] == if logs[k].upper > index then logs[k].(upper := index) else logs[k]
  {
    seq(|logs|, k requires 0 <= k < |logs| => if logs[k].upper > index then logs[k].(upper := index) else logs[k])
  }

  lemma PlaceDivides(logs: seq<LogFile>, index: nat, p: nat)
    requires Rising(logs) && Divides(logs, index, p)
    ensures Place(logs, index) == p
  {
  }

  /** No file ends where the new one begins, none is at its limit. */
  ghost predicate Free(logs: seq<LogFile>, index: nat, p: nat) {
    && Sorted(logs) && Divides(logs, index, p)
    && forall k :: 0 <= k < |logs| ==> logs[k].to < logs[k].upper && !logs[k].finished && (k < p ==> logs[k].to < index)
  }

  /** The files with the new one between its neighbours. */
  function With(logs: seq<LogFile>, f: LogFile, p: nat): seq<LogFile>
    requires p <= |logs|
  {
    Cut(logs[..p], f.from) + [f] + logs[p..]
  }

  lemma InsertedAtIs(logs: seq<LogFile>, f: LogFile, p: nat, k: nat)
    requires Rising(logs) && Divides(logs, f.from, p) && k <= |logs|
    ensures |Inserted(logs, f)| == |logs| + 1
    ensures Inserted(logs, f)[k] == if k < p then logs[k] else if k == p then f else logs[k - 1]
  {
    PlaceDivides(logs, f.from, p);
  }

  /** Lowering changes the new file and the files in front of it only. */
  lemma LoweredInFront(logs: seq<LogFile>, f: LogFile, p: nat, k: nat)
    requires Free(logs, f.from, p) && k < p
    ensures var g := logs[k].(upper := if logs[k].upper > f.from then f.from else logs[k].upper);
            Lowered(logs[k], if k + 1 < p then logs[k + 1].from else f.from) == g && !g.finished
  {
    if k + 1 < p { assert logs[k].upper <= logs[k + 1].from <= f.from; }
  }

  lemma LoweredBehind(logs: seq<LogFile>, index: nat, p: nat, k: nat)
    requires Free(logs, index, p) && p <= k < |logs|
    ensures k + 1 < |logs| ==> Lowered(logs[k], logs[k + 1].from) == logs[k]
    ensures !logs[k].finished
  {
    if k + 1 < |logs| { assert logs[k].upper <= logs[k + 1].from; }
  }

  /** The file at position `k` once `f` is in at `p` and the limits are lowered. */
  function After(logs: seq<LogFile>, f: LogFile, p: nat, k: nat): LogFile
    requires p <= |logs| && k <= |logs|
  {
    if k < p then logs[k].(upper := if logs[k].upper > f.from then f.from else logs[k].upper)
    else if k == p then f.(upper := Bound(logs, p, Some(f.upper)), finished := Bound(logs, p, Some(f.upper)) == f.to)
    else logs[k - 1]
  }

  lemma LoweredIs(logs: seq<LogFile>, f: LogFile, p: nat, k: nat)
    requires Free(logs, f.from, p) && f.to == f.from + 1 < f.upper && !f.finished && k <= |logs|
    ensures |Inserted(logs, f)| == |logs| + 1
    ensures LoweredAt(Inserted(logs, f), k) == After(logs, f, p, k)
    ensures Completes(Inserted(logs, f), k) <==> k == p && Bound(logs, p, Some(f.upper)) == f.to
  {
    SortedRises(logs);
    InsertedAtIs(logs, f, p, k);
    var all := Inserted(logs, f);
    if k < |logs| { InsertedAtIs(logs, f, p, k + 1); }
    if k < p {
      LoweredInFront(logs, f, p, k);
      assert LoweredAt(all, k) == Lowered(all[k], all[k + 1].from);
    } else if k > p {
      LoweredBehind(logs, f.from, p, k - 1);
      assert LoweredAt(all, k) == all[k];
    } else {
      assert k < |logs| ==> all[k + 1] == logs[k];
    }
  }

  lemma WithIs(logs: seq<LogFile>, f: LogFile, p: nat, k: nat)
    requires p <= |logs| && k <= |logs|
    ensures With(logs, f.(upper := Bound(logs, p, Some(f.upper)), finished := Bound(logs, p, Some(f.upper)) == f.to), p)[k] == After(logs, f, p, k)
  {
  }

  lemma InsertedLowered(logs: seq<LogFile>, f: LogFile, p: nat)
    requires Free(logs, f.from, p) && f.to == f.from + 1 < f.upper && !f.finished
    ensures var u := Bound(logs, p, Some(f.upper));
            LowerAll(Inserted(logs, f)) == With(logs, f.(upper := u, finished := u == f.to), p)
  {
    InsertedAtIs(logs, f, p, 0);
    forall k | 0 <= k <= |logs|
      ensures LowerAll(Inserted(logs, f))[k] == With(logs, f.(upper := Bound(logs, p, Some(f.upper)), finished := Bound(logs, p, Some(f.upper)) == f.to), p)[k]
    {
      LoweredIs(logs, f, p, k);
      WithIs(logs, f, p, k);
    }
  }

  /** Only the new file can be finished by this. */
  lemma InsertedFinishes(logs: seq<LogFile>, f: LogFile, p: nat)
    requires Free(logs, f.from, p) && f.to == f.from + 1 < f.upper && !f.finished && Rising(Inserted(logs, f))
    ensures var all := Inserted(logs, f); NewlyFinished(all, |all|) == if Bound(logs, p, Some(f.upper)) == f.to then [f.from] else []
  {
    var all := Inserted(logs, f);
    var out := NewlyFinished(all, |all|);
    SortedRises(logs);
    InsertedAtIs(logs, f, p, p);
    forall k | 0 <= k < |out|
      ensures out[k] == f.from && Bound(logs, p, Some(f.upper)) == f.to
    {
      FinishedIsNew(logs, f, p, out[k]);
    }
    LoweredIs(logs, f, p, p);
    NewlyFinishedAt(all, p);
    NewlyFinishedAre(all, |all|, f.from);
    OneOrNone(out, f.from);
  }

  lemma FinishedIsNew(logs: seq<LogFile>, f: LogFile, p: nat, from: nat)
    requires Free(logs, f.from, p) && f.to == f.from + 1 < f.upper && !f.finished && Rising(Inserted(logs, f))
    requires from in NewlyFinished(Inserted(logs, f), |Inserted(logs, f)|)
    ensures from == f.from && Bound(logs, p, Some(f.upper)) == f.to
  {
    var all := Inserted(logs, f);
    NewlyFinishedAre(all, |all|, from);
    var k :| 0 <= k < |all| && all[k].from == from && Completes(all, k);
    SortedRises(logs);
    InsertedAtIs(logs, f, p, 0);
    LoweredIs(logs, f, p, k);
    InsertedAtIs(logs, f, p, k);
  }

  lemma FirstTwo(s: seq<nat>, x: nat)
    requires forall k :: 0 <= k < |s| ==> s[k] == x
    ensures |s| > 1 ==> s[0] == s[1]
  {
  }

  lemma OneOrNone(s: seq<nat>, x: nat)
    requires Distinct(s) && forall k :: 0 <= k < |s| ==> s[k] == x
    ensures s == if x in s then [x] else []
  {
    FirstTwo(s, x);
    if |s| > 1 {
      assert false;
    } else if |s| == 1 {
      assert s == [s[0]];
    }
  }

  /** The limit a file is begun with. */
  function Base(limit: Option<nat>): nat {
    if limit.Some? then limit.value else MAX_INDEX
  }

  lemma LastOneIsFinished(c: Config, fs: Files, d: MilestoneData, limit: Option<nat>, p: nat)
    requires Divides(fs.logs, d.index, p) && Base(limit) == d.index + 1
    ensures var t, f := CreateAndAppend(c, fs, d, limit), FileOf(c, d, Bound(fs.logs, p, limit));
            Retired(fs, t, f) && t.logs == fs.logs && t.cleanup == fs.cleanup
  {
    FreshIs(c, d, limit);
    PushRetires(fs, Fresh(c, d, Base(limit)).(finished := true));
  }

  /** The new file before its limit is lowered. */
  function Fresh(c: Config, d: MilestoneData, base: nat): LogFile {
    LogFile(d.index, d.index + 1, base, c.lineLen(d), false, [d])
  }

  lemma FreshIs(c: Config, d: MilestoneData, limit: Option<nat>)
    ensures AppendLine(c, Create(d.index, limit), d) == Fresh(c, d, Base(limit))
  {
    assert [] + [d] == [d];
  }

  lemma InsertedIsWith(c: Config, logs: seq<LogFile>, d: MilestoneData, base: nat, p: nat)
    requires Free(logs, d.index, p) && d.index + 1 < base
    ensures var g, all := FileOf(c, d, Bound(logs, p, Some(base))), Inserted(logs, Fresh(c, d, base));
            LowerAll(all) == With(logs, g, p) && NewlyFinished(all, |all|) == if g.finished then [d.index] else []
  {
    var f := Fresh(c, d, base);
    SortedRises(logs);
    InsertedRises(logs, f, p);
    InsertedLowered(logs, f, p);
    InsertedFinishes(logs, f, p);
  }

  lemma CreateIs(c: Config, fs: Files, d: MilestoneData, limit: Option<nat>, p: nat)
    requires Free(fs.logs, d.index, p) && d.index + 1 < Base(limit)
    ensures var f := FileOf(c, d, Bound(fs.logs, p, limit));
            CreateAndAppend(c, fs, d, limit) == fs.(logs := With(fs.logs, f, p), cleanup := fs.cleanup + if f.finished then [d.index] else [])
  {
    FreshIs(c, d, limit);
    InsertedIsWith(c, fs.logs, d, Base(limit), p);
  }

  lemma InsertedRises(logs: seq<LogFile>, f: LogFile, p: nat)
    requires Rising(logs) && Divides(logs, f.from, p) && forall k :: 0 <= k < p ==> logs[k].from < f.from
    ensures Rising(Inserted(logs, f))
  {
    var all := Inserted(logs, f);
    InsertedAtIs(logs, f, p, 0);
    forall i, j | 0 <= i < j < |all|
      ensures all[i].from < all[j].from
    {
      InsertedAtIs(logs, f, p, i);
      InsertedAtIs(logs, f, p, j);
    }
  }

  /** The files when a line has begun a new one; if it may have just this line, it is finished at once. */
  ghost predicate NewFile(c: Config, fs: Files, d: MilestoneData, limit: Option<nat>, p: nat, t: Files)
    requires p <= |fs.logs|
  {
    var f := FileOf(c, d, Bound(fs.logs, p, limit));
    && t.cleanup == []
    && (if f.finished
        then Retired(fs, t, f) && t.logs == (if Base(limit) == d.index + 1 then fs.logs else Cut(fs.logs[..p], d.index) + fs.logs[p..])
        else t.logs == With(fs.logs, f, p) && t.disk == fs.disk && t.processed == fs.processed)
  }

  lemma CreateMakesFile(c: Config, fs: Files, d: MilestoneData, limit: Option<nat>, p: nat)
    requires Free(fs.logs, d.index, p) && fs.cleanup == [] && d.index < Base(limit)
    ensures CleanUp(CreateAndAppend(c, fs, d, limit)).Some?
    ensures NewFile(c, fs, d, limit, p, CleanUp(CreateAndAppend(c, fs, d, limit)).value)
  {
    var u, f := CreateAndAppend(c, fs, d, limit), FileOf(c, d, Bound(fs.logs, p, limit));
    if Base(limit) == d.index + 1 {
      LastOneIsFinished(c, fs, d, limit, p);
      assert CleanUp(u) == Some(u);
    } else {
      CreateIs(c, fs, d, limit, p);
      if f.finished { NewIsTakenOut(c, fs, d, f, p, u); }
    }
  }

  /** A line that no active file waits for and that is in no finished file begins a new file, between its neighbours and up to
      its limit or the next file. */
  lemma LineBeginsFile(c: Config, fs: Files, d: MilestoneData, limit: Option<nat>, p: nat)
    requires Ordered(fs) && Free(fs.logs, d.index, p) && !InProcessed(fs.processed, d.index) && d.index < Base(limit)
    requires forall i :: 0 <= i < |fs.logs| ==> !Continues(fs.logs[i], d.index)
    ensures HandleData(c, fs, d, limit).Some? && NewFile(c, fs, d, limit, p, HandleData(c, fs, d, limit).value)
  {
    CreateMakesFile(c, fs, d, limit, p);
  }

  lemma WithRises(logs: seq<LogFile>, f: LogFile, p: nat)
    requires Free(logs, f.from, p)
    ensures Rising(With(logs, f, p))
  {
    var all := With(logs, f, p);
    SortedRises(logs);
    forall i, j | 0 <= i < j < |all|
      ensures all[i].from < all[j].from
    {
      assert all[i].from == (if i < p then logs[i].from else if i == p then f.from else logs[i - 1].from);
      assert all[j].from == (if j < p then logs[j].from else if j == p then f.from else logs[j - 1].from);
      if i < p { assert logs[i].from < logs[i].to < f.from; }
    }
  }

  lemma WithoutMiddle(a: seq<LogFile>, f: LogFile, b: seq<LogFile>)
    ensures (a + [f] + b)[|a|] == f && Without(a + [f] + b, |a|) == a + b
  {
  }

  lemma NewIsTakenOut(c: Config, fs: Files, d: MilestoneData, f: LogFile, p: nat, u: Files)
    requires Free(fs.logs, d.index, p) && f.from == d.index && f.finished
    requires u == fs.(logs := With(fs.logs, f, p), cleanup := [d.index])
    ensures CleanUp(u).Some?
    ensures var t := CleanUp(u).value; t.cleanup == [] && t.logs == Cut(fs.logs[..p], d.index) + fs.logs[p..] && Retired(fs, t, f)
  {
    WithRises(fs.logs, f, p);
    WithoutMiddle(Cut(fs.logs[..p], d.index), f, fs.logs[p..]);
    CleansUpOne(u, p);
  }

  // ------------------------------------------------------------------------------------------------------------
  // Full files, and closing
  // ------------------------------------------------------------------------------------------------------------

  /** A line for which its file has no room finishes the file as it is, and begins a new one in its place, up to the same
      limit, unless the line is in a finished file. */
  lemma FullIsFollowed(c: Config, fs: Files, d: MilestoneData, limit: Option<nat>, i: nat)
    requires Ordered(fs) && i < |fs.logs| && Continues(fs.logs[i], d.index) && !HasRoom(c, fs.logs[i], d)
    ensures HandleData(c, fs, d, limit).Some?
    ensures var t, f, g := HandleData(c, fs, d, limit).value, fs.logs[i], FileOf(c, d, fs.logs[i].upper);
            var gone := exists u: nat :: t.disk == fs.disk + [f.(upper := u, finished := true)];
            && t.cleanup == []
            && (if InProcessed(fs.processed, d.index) then t.logs == Without(fs.logs, i) && gone
                else if !g.finished then t.logs == fs.logs[i := g] && gone
                else t.logs == Without(fs.logs, i) && exists u: nat :: t.disk == fs.disk + [g] + [f.(upper := u, finished := true)])
  {
    OpenIs(fs.logs, d.index, i);
    SortedRises(fs.logs);
    var f := fs.logs[i].(finished := true);
    var u := fs.(logs := fs.logs[i := f], cleanup := [f.from]);
    assert fs.cleanup + [f.from] == [f.from];
    ReplacedRises(fs.logs, i, f);
    assert Without(fs.logs[i := f], i) == Without(fs.logs, i);
    if InProcessed(fs.processed, d.index) {
      CleansUpOne(u, i);
      assert f == f.(upper := f.upper, finished := true);
    } else {
      FollowerIsBegun(c, fs, d, i, u);
    }
  }

  /** The files with a follower right behind the one at `i`, which may not grow beyond it. */
  function Followed(logs: seq<LogFile>, i: nat, g: LogFile): seq<LogFile>
    requires i < |logs|
  {
    logs[..i] + [logs[i].(upper := g.from, finished := true)] + [g] + logs[i + 1..]
  }

  lemma FollowerIsInserted(logs: seq<LogFile>, i: nat, g: LogFile, k: nat)
    requires Sorted(logs) && i < |logs| && logs[i].to == g.from < g.to <= g.upper == logs[i].upper && k <= |logs|
    ensures var all := Inserted(logs[i := logs[i].(finished := true)], g);
            |all| == |logs| + 1
            && all[k] == if k < i then logs[k] else if k == i then logs[i].(finished := true) else if k == i + 1 then g else logs[k - 1]
  {
    var marked := logs[i := logs[i].(finished := true)];
    SortedRises(logs);
    ReplacedRises(logs, i, marked[i]);
    assert Divides(marked, g.from, i + 1);
    InsertedAtIs(marked, g, i + 1, k);
  }

  lemma FollowerLowers(logs: seq<LogFile>, i: nat, g: LogFile, k: nat)
    requires Sorted(logs) && i < |logs| && logs[i].to == g.from && g.from + 1 == g.to < g.upper == logs[i].upper && k <= |logs|
    requires !g.finished && forall j :: 0 <= j < |logs| ==> logs[j].to < logs[j].upper && !logs[j].finished
    ensures var all := Inserted(logs[i := logs[i].(finished := true)], g);
            |all| == |logs| + 1 && LoweredAt(all, k) == Followed(logs, i, g)[k] && !Completes(all, k)
  {
    var all := Inserted(logs[i := logs[i].(finished := true)], g);
    FollowerIsInserted(logs, i, g, k);
    if k < |logs| { FollowerIsInserted(logs, i, g, k + 1); }
    if k < i { assert logs[k].upper <= logs[k + 1].from; }
    if i < k < |logs| { assert logs[k - 1].upper <= logs[k].from; }
  }

  lemma {:induction false} NoneFinishes(logs: seq<LogFile>, n: nat)
    requires n <= |logs| && forall k :: 0 <= k < |logs| ==> !Completes(logs, k)
    ensures NewlyFinished(logs, n) == []
    decreases n
  {
    if n > 0 {
      NoneFinishes(logs, n - 1);
      assert !Completes(logs, n - 1);
    }
  }

  lemma FollowerIsAdded(c: Config, fs: Files, d: MilestoneData, i: nat, u: Files)
    requires Ordered(fs) && i < |fs.logs| && Continues(fs.logs[i], d.index) && d.index + 1 < fs.logs[i].upper
    requires u == fs.(logs := fs.logs[i := fs.logs[i].(finished := true)], cleanup := [fs.logs[i].from])
    ensures CreateAndAppend(c, u, d, Some(fs.logs[i].upper)) == u.(logs := Followed(fs.logs, i, Fresh(c, d, fs.logs[i].upper)))
  {
    var g := Fresh(c, d, fs.logs[i].upper);
    FreshIs(c, d, Some(fs.logs[i].upper));
    var all := Inserted(u.logs, g);
    FollowerIsInserted(fs.logs, i, g, 0);
    forall k | 0 <= k <= |fs.logs|
      ensures LoweredAt(all, k) == Followed(fs.logs, i, g)[k] && !Completes(all, k)
    {
      FollowerLowers(fs.logs, i, g, k);
    }
    NoneFinishes(all, |all|);
    assert u.cleanup + [] == u.cleanup;
  }

  lemma FollowedRises(logs: seq<LogFile>, i: nat, g: LogFile)
    requires Sorted(logs) && i < |logs| && logs[i].to == g.from < logs[i].upper
    ensures Rising(Followed(logs, i, g)) && Followed(logs, i, g)[i] == logs[i].(upper := g.from, finished := true)
    ensures Without(Followed(logs, i, g), i) == logs[i := g]
  {
    var all := Followed(logs, i, g);
    SortedRises(logs);
    forall j, k | 0 <= j < k < |all|
      ensures all[j].from < all[k].from
    {
      assert all[j].from == (if j <= i then logs[j].from else if j == i + 1 then g.from else logs[j - 1].from);
      assert all[k].from == (if k <= i then logs[k].from else if k == i + 1 then g.from else logs[k - 1].from);
    }
  }

  lemma FollowerIsBegun(c: Config, fs: Files, d: MilestoneData, i: nat, u: Files)
    requires Ordered(fs) && i < |fs.logs| && Continues(fs.logs[i], d.index)
    requires u == fs.(logs := fs.logs[i := fs.logs[i].(finished := true)], cleanup := [fs.logs[i].from])
    ensures var r := CleanUp(CreateAndAppend(c, u, d, Some(fs.logs[i].upper)));
            && r.Some?
            && var t, f, g := r.value, fs.logs[i], FileOf(c, d, fs.logs[i].upper);
               && t.cleanup == []
               && (if !g.finished
                   then t.logs == fs.logs[i := g] && exists v: nat :: t.disk == fs.disk + [f.(upper := v, finished := true)]
                   else t.logs == Without(fs.logs, i) && exists v: nat :: t.disk == fs.disk + [g] + [f.(upper := v, finished := true)])
  {
    var f, limit := fs.logs[i], Some(fs.logs[i].upper);
    SortedRises(fs.logs);
    if d.index + 1 < f.upper {
      var g := Fresh(c, d, f.upper);
      FollowerIsAdded(c, fs, d, i, u);
      FollowedRises(fs.logs, i, g);
      CleansUpOne(u.(logs := Followed(fs.logs, i, g)), i);
    } else {
      FreshIs(c, d, limit);
      ReplacedRises(fs.logs, i, f.(finished := true));
      var v := CreateAndAppend(c, u, d, limit);
      CleansUpOne(v, i);
      assert Without(u.logs, i) == Without(fs.logs, i);
      assert f.(finished := true) == f.(upper := f.upper, finished := true);
    }
  }

  /** Closing below the frontier finishes the file that ends at the index, as it is, and no other; beyond it nothing happens. */
  lemma CloseFinishes(c: Config, s: State, index: nat)
    requires Ordered(s.files)
    ensures var t := Step(c, s, Close(index));
            && t.Some?
            && (index >= s.next ==> t == Some(s))
            && (index < s.next ==> t.value == s.(files := t.value.files) && forall i :: 0 <= i < |s.files.logs| && s.files.logs[i].to == index ==>
                 t.value.files.logs == Without(s.files.logs, i) && Retired(s.files, t.value.files, s.files.logs[i].(finished := true)))
            && ((forall i :: 0 <= i < |s.files.logs| ==> s.files.logs[i].to != index) ==> t == Some(s))
  {
    forall i | 0 <= i < |s.files.logs| && s.files.logs[i].to == index
      ensures FindEnd(s.files.logs, index) == i
    {
      OnlyEnd(s.files.logs, index, i);
    }
    var k := FindEnd(s.files.logs, index);
    if k < |s.files.logs| {
      PushRetires(s.files.(logs := Without(s.files.logs, k)), s.files.logs[k].(finished := true));
    }
  }

  lemma OnlyEnd(logs: seq<LogFile>, index: nat, i: nat)
    requires Sorted(logs) && i < |logs| && logs[i].to == index
    ensures FindEnd(logs, index) == i
  {
  }

  // ------------------------------------------------------------------------------------------------------------
  // Events
  // ------------------------------------------------------------------------------------------------------------

  /** Data of the Syncer that begin a file: in a gap up to the limit they come with, at the frontier without one. */
  lemma SyncerDataBegins(c: Config, s: State, d: MilestoneData, limit: Option<nat>, p: nat)
    requires Ordered(s.files) && d.createdBy.Syncer? && d.index <= s.next
    requires Free(s.files.logs, d.index, p) && !InProcessed(s.files.processed, d.index)
    requires d.index < Base(if d.index < s.next then limit else None)
    requires forall i :: 0 <= i < |s.files.logs| ==> !Continues(s.files.logs[i], d.index)
    ensures var t := Step(c, s, Data(d, limit));
            && t.Some? && NewFile(c, s.files, d, if d.index < s.next then limit else None, p, t.value.files)
            && t.value.heap == s.heap && t.value.next == if d.index < s.next then s.next else s.next + 1
  {
    LineBeginsFile(c, s.files, d, if d.index < s.next then limit else None, p);
  }

  lemma {:induction false} CleanUpKeepsDisk(fs: Files)
    ensures CleanUp(fs).Some? ==> fs.disk <= CleanUp(fs).value.disk
    decreases |fs.cleanup|
  {
    if fs.cleanup != [] {
      var n := |fs.cleanup| - 1;
      var i := FindStart(fs.logs, fs.cleanup[n]);
      if i < |fs.logs| { CleanUpKeepsDisk(PushToProcessed(fs.(cleanup := fs.cleanup[..n], logs := Without(fs.logs, i)), fs.logs[i])); }
    }
  }

  lemma HandleDataKeepsDisk(c: Config, fs: Files, d: MilestoneData, limit: Option<nat>)
    ensures HandleData(c, fs, d, limit).Some? ==> fs.disk <= HandleData(c, fs, d, limit).value.disk
  {
    CleanUpKeepsDisk(Write(c, fs, d, limit));
  }

  lemma {:induction false} DrainKeepsDisk(c: Config, s: State, limit: Option<nat>)
    ensures Drain(c, s, limit).Some? ==> s.files.disk <= Drain(c, s, limit).value.files.disk
    decreases |s.heap|
  {
    if s.heap != [] {
      var d, t := s.heap[0], s.(heap := s.heap[1..]);
      if d.index < s.next {
        DrainKeepsDisk(c, t, limit);
      } else if !(d.index > s.next && |t.heap| <= c.solidifiers) {
        var u := if d.index > s.next then t.(files := CloseLogFile(t.files, s.next)) else t;
        HandleDataKeepsDisk(c, u.files, d, limit);
        if WriteAndMove(c, u, d, limit, d.index + 1).Some? { DrainKeepsDisk(c, WriteAndMove(c, u, d, limit, d.index + 1).value, limit); }
      }
    }
  }

  /** Whatever the event, finished files stay as they are. */
  lemma StepKeepsDisk(c: Config, s: State, e: ArchiverEvent)
    ensures Step(c, s, e).Some? ==> s.files.disk <= Step(c, s, e).value.files.disk
  {
    match e
    case Close(index) =>
    case Data(d, limit) =>
      if !d.createdBy.Syncer? {
        DrainKeepsDisk(c, s.(heap := Heap.Push(s.heap, d)), limit);
      } else {
        HandleDataKeepsDisk(c, s.files, d, limit);
        HandleDataKeepsDisk(c, s.files, d, None);
      }
  }

  /** When the buffer jumps a hole, the file that ends in front of the hole is finished as it is. */
  lemma JumpFinishes(c: Config, s: State, limit: Option<nat>, i: nat)
    requires Ordered(s.files) && i < |s.files.logs| && s.files.logs[i].to == s.next
    requires s.heap != [] && s.heap[0].index > s.next && |s.heap| - 1 > c.solidifiers && Drain(c, s, limit).Some?
    ensures var disk := Drain(c, s, limit).value.files.disk;
            |disk| > |s.files.disk| && disk[|s.files.disk|] == s.files.logs[i].(finished := true)
  {
    var d := s.heap[0];
    var u := s.(heap := s.heap[1..], files := CloseLogFile(s.files, s.next));
    OnlyEnd(s.files.logs, s.next, i);
    assert u.files.disk == s.files.disk + [s.files.logs[i].(finished := true)];
    HandleDataKeepsDisk(c, u.files, d, limit);
    var v := WriteAndMove(c, u, d, limit, d.index + 1).value;
    DrainKeepsDisk(c, v, limit);
  }
}
