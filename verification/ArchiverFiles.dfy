/** The Archiver's files tile what was written. */
module ArchiverFiles {
  import opened Types
  import opened Ranges
  import opened ArchiverSpec

  // ------------------------------------------------------------------------------------------------------------
  // How often an index is covered
  // ------------------------------------------------------------------------------------------------------------

  ghost function One(b: bool): nat {
    if b then 1 else 0
  }

  /** The sum of a weight over a list of files. */
  ghost function Sum(logs: seq<LogFile>, w: LogFile -> nat): nat {
    if logs == [] then 0 else w(logs[0]) + Sum(logs[1..], w)
  }

  /** Weighs 1 if the file's range has `x`. */
  ghost function Holding(x: nat): LogFile -> nat {
    (f: LogFile) => One(f.from <= x < f.to)
  }

  /** How often the file has the line `d`. */
  ghost function Listing(d: MilestoneData): LogFile -> nat {
    (f: LogFile) => multiset(f.lines)[d]
  }

  ghost function InRanges(rs: seq<Range>, x: nat): nat {
    if rs == [] then 0 else One(rs[0].Has(x)) + InRanges(rs[1..], x)
  }

  /** The number of files, active or finished, whose range has `x`. */
  ghost function Cover(fs: Files, x: nat): nat {
    Sum(fs.logs, Holding(x)) + InRanges(fs.processed, x)
  }

  /** How often the line `d` is in the files, active or finished. */
  ghost function Copies(fs: Files, d: MilestoneData): nat {
    Sum(fs.logs, Listing(d)) + Sum(fs.disk, Listing(d))
  }

  lemma {:induction false} SumConcat(a: seq<LogFile>, b: seq<LogFile>, w: LogFile -> nat)
    ensures Sum(a + b, w) == Sum(a, w) + Sum(b, w)
    decreases |a|
  {
    if a == [] {
      assert a + b == b;
    } else {
      SumConcat(a[1..], b, w);
      assert (a + b)[1..] == a[1..] + b;
    }
  }

  lemma {:induction false} InRangesConcat(a: seq<Range>, b: seq<Range>, x: nat)
    ensures InRanges(a + b, x) == InRanges(a, x) + InRanges(b, x)
    decreases |a|
  {
    if a == [] {
      assert a + b == b;
    } else {
      InRangesConcat(a[1..], b, x);
      assert (a + b)[1..] == a[1..] + b;
    }
  }

  lemma SumAround(a: seq<LogFile>, f: LogFile, b: seq<LogFile>, w: LogFile -> nat)
    ensures Sum(a + [f] + b, w) == Sum(a, w) + w(f) + Sum(b, w)
  {
    SumConcat(a + [f], b, w);
    SumConcat(a, [f], w);
    assert [f][1..] == [];
  }

  lemma SumUpdate(logs: seq<LogFile>, i: nat, f: LogFile, w: LogFile -> nat)
    requires i < |logs|
    ensures Sum(logs[i := f], w) + w(logs[i]) == Sum(logs, w) + w(f)
  {
    SumAround(logs[..i], logs[i], logs[i + 1..], w);
    SumAround(logs[..i], f, logs[i + 1..], w);
    assert logs == logs[..i] + [logs[i]] + logs[i + 1..];
    assert logs[i := f] == logs[..i] + [f] + logs[i + 1..];
  }

  lemma SumWithout(logs: seq<LogFile>, i: nat, w: LogFile -> nat)
    requires i < |logs|
    ensures Sum(Without(logs, i), w) + w(logs[i]) == Sum(logs, w)
  {
    SumAround(logs[..i], logs[i], logs[i + 1..], w);
    SumConcat(logs[..i], logs[i + 1..], w);
    assert logs == logs[..i] + [logs[i]] + logs[i + 1..];
  }

  lemma SumInserted(logs: seq<LogFile>, f: LogFile, w: LogFile -> nat)
    ensures Sum(Inserted(logs, f), w) == Sum(logs, w) + w(f)
  {
    var i := Place(logs, f.from);
    SumAround(logs[..i], f, logs[i..], w);
    SumConcat(logs[..i], logs[i..], w);
    assert logs == logs[..i] + logs[i..];
  }

  lemma InRangesInserted(rs: seq<Range>, r: Range, x: nat)
    ensures InRanges(InsertedRange(rs, r), x) == InRanges(rs, x) + One(r.Has(x))
  {
    var i := PlaceRange(rs, r.start);
    InRangesConcat(rs[..i] + [r], rs[i..], x);
    InRangesConcat(rs[..i], [r], x);
    InRangesConcat(rs[..i], rs[i..], x);
    assert rs == rs[..i] + rs[i..];
    assert [r][1..] == [];
  }

  lemma {:induction false} SameSum(a: seq<LogFile>, b: seq<LogFile>, w: LogFile -> nat)
    requires |a| == |b| && forall i :: 0 <= i < |a| ==> w(a[i]) == w(b[i])
    ensures Sum(a, w) == Sum(b, w)
    decreases |a|
  {
    if a != [] {
      SameSum(a[1..], b[1..], w);
    }
  }

  lemma {:induction false} ProcessedCount(rs: seq<Range>, x: nat)
    ensures InProcessed(rs, x) <==> InRanges(rs, x) > 0
    decreases |rs|
  {
    if rs != [] {
      ProcessedCount(rs[1..], x);
      if InProcessed(rs[1..], x) {
        var i :| 0 <= i < |rs[1..]| && rs[1..][i].Has(x);
        assert rs[i + 1].Has(x);
      }
    }
  }

  // ------------------------------------------------------------------------------------------------------------
  // Every write adds exactly its own index
  // ------------------------------------------------------------------------------------------------------------

  /** The line of `index` is written. */
  ghost predicate Writes(c: Config, fs: Files, d: MilestoneData) {
    var i := FindOpen(fs.logs, d.index);
    (i < |fs.logs| && c.lineLen(d) + fs.logs[i].len < c.maxLogSize) || !InProcessed(fs.processed, d.index)
  }

  lemma ProcessedCover(fs: Files, f: LogFile, x: nat)
    ensures Cover(PushToProcessed(fs, f), x) == Cover(fs, x) + One(f.from <= x < f.to)
  {
    InRangesInserted(fs.processed, Range(f.from, f.to), x);
  }

  lemma ProcessedCopies(fs: Files, f: LogFile, x: MilestoneData)
    ensures Copies(PushToProcessed(fs, f), x) == Copies(fs, x) + multiset(f.lines)[x]
  {
    SumConcat(fs.disk, [f], Listing(x));
    assert [f][1..] == [];
  }

  /** Lowering limits changes no range and no line. */
  lemma LoweredInserted(logs: seq<LogFile>, f: LogFile, x: nat, y: MilestoneData)
    ensures Sum(LowerAll(Inserted(logs, f)), Holding(x)) == Sum(logs, Holding(x)) + One(f.from <= x < f.to)
    ensures Sum(LowerAll(Inserted(logs, f)), Listing(y)) == Sum(logs, Listing(y)) + multiset(f.lines)[y]
  {
    var r := Inserted(logs, f);
    SumInserted(logs, f, Holding(x));
    SameSum(LowerAll(r), r, Holding(x));
    SumInserted(logs, f, Listing(y));
    SameSum(LowerAll(r), r, Listing(y));
  }

  /** A new file holds exactly the line it was created for. */
  lemma CreateAdds(c: Config, fs: Files, d: MilestoneData, limit: Option<nat>, x: nat, y: MilestoneData)
    ensures Cover(CreateAndAppend(c, fs, d, limit), x) == Cover(fs, x) + One(x == d.index)
    ensures Copies(CreateAndAppend(c, fs, d, limit), y) == Copies(fs, y) + One(y == d)
  {
    var f := AppendLine(c, Create(d.index, limit), d);
    assert f.lines == [d];
    if f.upper == f.to {
      ProcessedCover(fs, f.(finished := true), x);
      ProcessedCopies(fs, f.(finished := true), y);
    } else {
      LoweredInserted(fs.logs, f, x, y);
    }
  }

  lemma UpdateAdds(fs: Files, i: nat, g: LogFile, cleanup: seq<nat>, x: nat, y: MilestoneData)
    requires i < |fs.logs|
    ensures var t := fs.(logs := fs.logs[i := g], cleanup := cleanup);
            && Cover(t, x) + Holding(x)(fs.logs[i]) == Cover(fs, x) + Holding(x)(g)
            && Copies(t, y) + Listing(y)(fs.logs[i]) == Copies(fs, y) + Listing(y)(g)
  {
    SumUpdate(fs.logs, i, g, Holding(x));
    SumUpdate(fs.logs, i, g, Listing(y));
  }

  /** Extending a file adds exactly the line. */
  lemma AppendAdds(c: Config, fs: Files, i: nat, d: MilestoneData, x: nat, y: MilestoneData)
    requires i < |fs.logs| && fs.logs[i].from <= fs.logs[i].to == d.index
    requires c.lineLen(d) + fs.logs[i].len < c.maxLogSize
    ensures var t := Extend(c, fs, i, d);
            Cover(t, x) == Cover(fs, x) + One(x == d.index) && Copies(t, y) == Copies(fs, y) + One(y == d)
  {
    var g := AppendLine(c, fs.logs[i], d);
    var h := if g.upper == g.to then g.(finished := true) else g;
    UpdateAdds(fs, i, h, if g.upper == g.to then fs.cleanup + [g.from] else fs.cleanup, x, y);
    assert multiset(h.lines) == multiset(fs.logs[i].lines) + multiset{d};
  }

  /** Finishing a full file and going on in a new one adds exactly the line. */
  lemma OverflowAdds(c: Config, fs: Files, i: nat, d: MilestoneData, x: nat, y: MilestoneData)
    requires i < |fs.logs| && c.lineLen(d) + fs.logs[i].len >= c.maxLogSize
    ensures var t, added := Extend(c, fs, i, d), !InProcessed(fs.processed, d.index);
            && Cover(t, x) == Cover(fs, x) + One(x == d.index && added)
            && Copies(t, y) == Copies(fs, y) + One(y == d && added)
  {
    var f := fs.logs[i];
    var t := fs.(logs := fs.logs[i := f.(finished := true)], cleanup := fs.cleanup + [f.from]);
    UpdateAdds(fs, i, f.(finished := true), fs.cleanup + [f.from], x, y);
    CreateAdds(c, t, d, Some(f.upper), x, y);
  }

  lemma WriteAdds(c: Config, fs: Files, d: MilestoneData, limit: Option<nat>, x: nat, y: MilestoneData)
    requires forall i :: 0 <= i < |fs.logs| ==> fs.logs[i].from <= fs.logs[i].to
    ensures var t, added := Write(c, fs, d, limit), Writes(c, fs, d);
            && Cover(t, x) == Cover(fs, x) + One(x == d.index && added)
            && Copies(t, y) == Copies(fs, y) + One(y == d && added)
  {
    var i := FindOpen(fs.logs, d.index);
    if i < |fs.logs| {
      if c.lineLen(d) + fs.logs[i].len < c.maxLogSize { AppendAdds(c, fs, i, d, x, y); }
      else { OverflowAdds(c, fs, i, d, x, y); }
    } else {
      CreateAdds(c, fs, d, limit, x, y);
    }
  }

  /** Taking a finished file out of the active ones changes nothing. */
  lemma RetireAdds(fs: Files, i: nat, f: LogFile, cleanup: seq<nat>, x: nat, y: MilestoneData)
    requires i < |fs.logs| && f.from == fs.logs[i].from && f.to == fs.logs[i].to && f.lines == fs.logs[i].lines
    ensures var t := PushToProcessed(fs.(cleanup := cleanup, logs := Without(fs.logs, i)), f);
            Cover(t, x) == Cover(fs, x) && Copies(t, y) == Copies(fs, y)
  {
    var t := fs.(cleanup := cleanup, logs := Without(fs.logs, i));
    SumWithout(fs.logs, i, Holding(x));
    SumWithout(fs.logs, i, Listing(y));
    ProcessedCover(t, f, x);
    ProcessedCopies(t, f, y);
  }

  lemma {:induction false} CleanUpAdds(fs: Files, x: nat, y: MilestoneData)
    requires CleanUp(fs).Some?
    ensures Cover(CleanUp(fs).value, x) == Cover(fs, x) && Copies(CleanUp(fs).value, y) == Copies(fs, y)
    decreases |fs.cleanup|
  {
    if fs.cleanup != [] {
      var n := |fs.cleanup| - 1;
      var i := FindStart(fs.logs, fs.cleanup[n]);
      RetireAdds(fs, i, fs.logs[i], fs.cleanup[..n], x, y);
      CleanUpAdds(PushToProcessed(fs.(cleanup := fs.cleanup[..n], logs := Without(fs.logs, i)), fs.logs[i]), x, y);
    }
  }

  lemma CloseAdds(fs: Files, index: nat, x: nat, y: MilestoneData)
    ensures Cover(CloseLogFile(fs, index), x) == Cover(fs, x) && Copies(CloseLogFile(fs, index), y) == Copies(fs, y)
  {
    var i := FindEnd(fs.logs, index);
    if i < |fs.logs| {
      RetireAdds(fs, i, fs.logs[i].(finished := true), fs.cleanup, x, y);
    }
  }

  // ------------------------------------------------------------------------------------------------------------
  // Order of the active files
  // ------------------------------------------------------------------------------------------------------------

  /** Active files are nonempty, sorted, and bounded by the start of the next one. */
  ghost predicate Sorted(logs: seq<LogFile>) {
    && (forall i :: 0 <= i < |logs| ==> logs[i].from < logs[i].to <= logs[i].upper)
    && (forall i, j :: 0 <= i < j < |logs| ==> logs[i].upper <= logs[j].from)
  }

  /** Between events no active file has reached its upper limit, and none waits to be taken out. */
  ghost predicate Ordered(fs: Files) {
    && Sorted(fs.logs) && fs.cleanup == []
    && forall i :: 0 <= i < |fs.logs| ==> fs.logs[i].to < fs.logs[i].upper && !fs.logs[i].finished
  }

  ghost predicate Distinct(s: seq<nat>) {
    forall i, j :: 0 <= i < j < |s| ==> s[i] != s[j]
  }

  ghost predicate IsStart(logs: seq<LogFile>, from: nat) {
    exists i :: 0 <= i < |logs| && logs[i].from == from
  }

  /** The files that wait to be taken out are active files. */
  ghost predicate Listed(logs: seq<LogFile>, cleanup: seq<nat>) {
    forall k :: 0 <= k < |cleanup| ==> IsStart(logs, cleanup[k])
  }

  /** Exactly the finished files wait. */
  ghost predicate Marked(logs: seq<LogFile>, cleanup: seq<nat>) {
    forall i :: 0 <= i < |logs| ==> (logs[i].finished <==> logs[i].from in cleanup)
  }

  ghost predicate Limited(logs: seq<LogFile>) {
    forall i :: 0 <= i < |logs| && logs[i].to == logs[i].upper ==> logs[i].finished
  }

  /** During an event exactly the finished files wait to be taken out, each once; files at their limit are finished. */
  ghost predicate Waiting(fs: Files) {
    && Sorted(fs.logs) && Limited(fs.logs)
    && Distinct(fs.cleanup) && Marked(fs.logs, fs.cleanup) && Listed(fs.logs, fs.cleanup)
  }

  ghost predicate Rising(logs: seq<LogFile>) {
    forall i, j :: 0 <= i < j < |logs| ==> logs[i].from < logs[j].from
  }

  lemma WithoutAt(logs: seq<LogFile>, i: nat, k: nat)
    requires i < |logs| && k < |logs| - 1
    ensures Without(logs, i)[k] == logs[if k < i then k else k + 1]
  {
  }

  lemma SortedWithout(logs: seq<LogFile>, i: nat)
    requires Sorted(logs) && i < |logs|
    ensures Sorted(Without(logs, i))
  {
    var r := Without(logs, i);
    assert forall k :: 0 <= k < |r| ==> r[k] == if k < i then logs[k] else logs[k + 1];
  }

  /** Every file that waits is found, and afterwards the order holds. */
  lemma {:induction false} CleanUpOrders(fs: Files)
    requires Waiting(fs)
    ensures CleanUp(fs).Some? && Ordered(CleanUp(fs).value)
    decreases |fs.cleanup|
  {
    if fs.cleanup != [] {
      var n := |fs.cleanup| - 1;
      assert IsStart(fs.logs, fs.cleanup[n]);
      var i := FindStart(fs.logs, fs.cleanup[n]);
      var t := PushToProcessed(fs.(cleanup := fs.cleanup[..n], logs := Without(fs.logs, i)), fs.logs[i]);
      PopKeepsWaiting(fs, i);
      CleanUpOrders(t);
    }
  }

  lemma PopKeepsListed(logs: seq<LogFile>, i: nat, cleanup: seq<nat>)
    requires i < |logs| && Listed(logs, cleanup) && logs[i].from !in cleanup
    ensures Listed(Without(logs, i), cleanup)
  {
    forall k | 0 <= k < |cleanup|
      ensures IsStart(Without(logs, i), cleanup[k])
    {
      assert IsStart(logs, cleanup[k]);
      var j :| 0 <= j < |logs| && logs[j].from == cleanup[k];
      WithoutAt(logs, i, if j < i then j else j - 1);
    }
  }

  lemma PopKeepsMarked(logs: seq<LogFile>, i: nat, cleanup: seq<nat>)
    requires i < |logs| && Rising(logs) && Marked(logs, cleanup + [logs[i].from])
    ensures Marked(Without(logs, i), cleanup)
  {
    var r := Without(logs, i);
    forall k | 0 <= k < |r|
      ensures r[k].finished <==> r[k].from in cleanup
    {
      WithoutAt(logs, i, k);
      var j := if k < i then k else k + 1;
      assert logs[j].from != logs[i].from;
      assert logs[j].from in cleanup + [logs[i].from] <==> logs[j].from in cleanup;
    }
  }

  lemma PopKeepsWaiting(fs: Files, i: nat)
    requires Waiting(fs) && fs.cleanup != [] && i < |fs.logs| && fs.logs[i].from == fs.cleanup[|fs.cleanup| - 1]
    ensures Waiting(PushToProcessed(fs.(cleanup := fs.cleanup[..|fs.cleanup| - 1], logs := Without(fs.logs, i)), fs.logs[i]))
  {
    var cleanup := fs.cleanup[..|fs.cleanup| - 1];
    assert fs.cleanup == cleanup + [fs.logs[i].from];
    SortedWithout(fs.logs, i);
    SortedRises(fs.logs);
    PopKeepsMarked(fs.logs, i, cleanup);
    PopKeepsListed(fs.logs, i, cleanup);
    LimitedWithout(fs.logs, i);
  }

  lemma SortedRises(logs: seq<LogFile>)
    requires Sorted(logs)
    ensures Rising(logs)
  {
  }

  lemma LimitedWithout(logs: seq<LogFile>, i: nat)
    requires i < |logs| && Limited(logs)
    ensures Limited(Without(logs, i))
  {
    forall k | 0 <= k < |logs| - 1
      ensures Without(logs, i)[k].to == Without(logs, i)[k].upper ==> Without(logs, i)[k].finished
    {
      WithoutAt(logs, i, k);
    }
  }

  // ------------------------------------------------------------------------------------------------------------
  // A new file
  // ------------------------------------------------------------------------------------------------------------

  /** `index` lies in no active file. */
  ghost predicate Outside(logs: seq<LogFile>, index: nat) {
    forall i :: 0 <= i < |logs| ==> logs[i].to <= index || index < logs[i].from
  }

  /** Where the files are once a new one is inserted. */
  ghost function InsertedAt(logs: seq<LogFile>, f: LogFile, i: nat): LogFile
    requires i <= |logs|
  {
    var p := Place(logs, f.from);
    if i < p then logs[i] else if i == p then f else logs[i - 1]
  }

  lemma InsertedIs(logs: seq<LogFile>, f: LogFile, i: nat)
    requires i <= |logs|
    ensures |Inserted(logs, f)| == |logs| + 1 && Inserted(logs, f)[i] == InsertedAt(logs, f, i)
  {
  }

  /** Files that neither overlap nor are out of order; limits may still be too high. */
  ghost predicate Apart(logs: seq<LogFile>) {
    && (forall i :: 0 <= i < |logs| ==> logs[i].from < logs[i].to <= logs[i].upper)
    && (forall i, j :: 0 <= i < j < |logs| ==> logs[i].to <= logs[j].from)
  }

  lemma InsertedPair(logs: seq<LogFile>, f: LogFile, i: nat, j: nat)
    requires Sorted(logs) && Outside(logs, f.from) && f.to == f.from + 1 <= f.upper
    requires i < j <= |logs|
    ensures InsertedAt(logs, f, i).to <= InsertedAt(logs, f, j).from
  {
    var p := Place(logs, f.from);
    if i == p {
      assert p < |logs| && logs[p].from <= logs[j - 1].from;
    } else if j == p {
      assert logs[i].from <= f.from;
    }
  }

  lemma InsertedApart(logs: seq<LogFile>, f: LogFile)
    requires Sorted(logs) && Outside(logs, f.from) && f.to == f.from + 1 <= f.upper
    ensures Apart(Inserted(logs, f))
  {
    var r := Inserted(logs, f);
    forall i | 0 <= i < |r|
      ensures r[i].from < r[i].to <= r[i].upper
    {
      InsertedIs(logs, f, i);
    }
    forall i, j | 0 <= i < j < |r|
      ensures r[i].to <= r[j].from
    {
      InsertedIs(logs, f, i);
      InsertedIs(logs, f, j);
      InsertedPair(logs, f, i, j);
    }
  }

  /** Lowering every limit to the start of the right neighbour restores the order. */
  lemma LowerAllSorts(logs: seq<LogFile>)
    requires Apart(logs)
    ensures Sorted(LowerAll(logs)) && Rising(logs)
  {
    var r := LowerAll(logs);
    forall i, j | 0 <= i < j < |r|
      ensures r[i].upper <= r[j].from
    {
      assert i + 1 < j ==> logs[i + 1].to <= logs[j].from;
    }
  }

  /** Lowering finishes file `i`. */
  ghost predicate Completes(logs: seq<LogFile>, i: nat)
    requires i < |logs|
  {
    LoweredAt(logs, i).finished && !logs[i].finished
  }

  lemma {:induction false} NewlyFinishedAre(logs: seq<LogFile>, n: nat, from: nat)
    requires n <= |logs| && Rising(logs)
    ensures from in NewlyFinished(logs, n) <==> exists i :: 0 <= i < n && logs[i].from == from && Completes(logs, i)
    ensures Distinct(NewlyFinished(logs, n))
  {
    if n > 0 {
      NewlyFinishedAre(logs, n - 1, from);
      NewlyFinishedAre(logs, n - 1, logs[n - 1].from);
    }
  }

  lemma NewlyFinishedAt(logs: seq<LogFile>, i: nat)
    requires i < |logs| && Rising(logs)
    ensures logs[i].from in NewlyFinished(logs, |logs|) <==> Completes(logs, i)
  {
    NewlyFinishedAre(logs, |logs|, logs[i].from);
  }

  lemma NewlyFinishedListed(logs: seq<LogFile>, cleanup: seq<nat>)
    requires Rising(logs) && Marked(logs, cleanup)
    ensures Listed(LowerAll(logs), NewlyFinished(logs, |logs|))
    ensures forall k :: 0 <= k < |NewlyFinished(logs, |logs|)| ==> NewlyFinished(logs, |logs|)[k] !in cleanup
  {
    var news, r := NewlyFinished(logs, |logs|), LowerAll(logs);
    forall k | 0 <= k < |news|
      ensures IsStart(r, news[k]) && news[k] !in cleanup
    {
      NewlyFinishedAre(logs, |logs|, news[k]);
      var i :| 0 <= i < |logs| && logs[i].from == news[k] && Completes(logs, i);
      assert r[i].from == news[k];
    }
  }

  lemma LowerAllListed(logs: seq<LogFile>, cleanup: seq<nat>)
    requires Listed(logs, cleanup)
    ensures Listed(LowerAll(logs), cleanup)
  {
    forall k | 0 <= k < |cleanup|
      ensures IsStart(LowerAll(logs), cleanup[k])
    {
      assert IsStart(logs, cleanup[k]);
      var i :| 0 <= i < |logs| && logs[i].from == cleanup[k];
      assert LowerAll(logs)[i].from == cleanup[k];
    }
  }

  lemma LowerAllMarked(logs: seq<LogFile>, cleanup: seq<nat>)
    requires Rising(logs) && Marked(logs, cleanup)
    ensures Marked(LowerAll(logs), cleanup + NewlyFinished(logs, |logs|))
  {
    var r, news := LowerAll(logs), NewlyFinished(logs, |logs|);
    forall i | 0 <= i < |r|
      ensures r[i].finished <==> r[i].from in cleanup + news
    {
      NewlyFinishedAt(logs, i);
      var from := logs[i].from;
      assert from in cleanup + news <==> from in cleanup || from in news;
    }
  }

  lemma WaitingConcat(logs: seq<LogFile>, a: seq<nat>, b: seq<nat>)
    requires Distinct(a) && Distinct(b) && forall k :: 0 <= k < |b| ==> b[k] !in a
    requires Listed(logs, a) && Listed(logs, b)
    ensures Distinct(a + b) && Listed(logs, a + b)
  {
  }

  lemma LowerAllLimited(logs: seq<LogFile>)
    requires logs != [] ==> logs[|logs| - 1].to < logs[|logs| - 1].upper || logs[|logs| - 1].finished
    ensures Limited(LowerAll(logs))
  {
  }

  /** After lowering exactly the finished files wait. */
  lemma LowerAllWaits(fs: Files)
    requires Apart(fs.logs) && Distinct(fs.cleanup) && Marked(fs.logs, fs.cleanup) && Listed(fs.logs, fs.cleanup)
    requires fs.logs != [] ==> fs.logs[|fs.logs| - 1].to < fs.logs[|fs.logs| - 1].upper || fs.logs[|fs.logs| - 1].finished
    ensures Waiting(fs.(logs := LowerAll(fs.logs), cleanup := fs.cleanup + NewlyFinished(fs.logs, |fs.logs|)))
  {
    var logs := fs.logs;
    LowerAllSorts(logs);
    NewlyFinishedAre(logs, |logs|, 0);
    NewlyFinishedListed(logs, fs.cleanup);
    LowerAllListed(logs, fs.cleanup);
    WaitingConcat(LowerAll(logs), fs.cleanup, NewlyFinished(logs, |logs|));
    LowerAllMarked(logs, fs.cleanup);
    LowerAllLimited(logs);
  }

  lemma InsertedKeepsMarked(logs: seq<LogFile>, f: LogFile, cleanup: seq<nat>)
    requires Marked(logs, cleanup) && !f.finished && f.from !in cleanup
    ensures Marked(Inserted(logs, f), cleanup)
  {
    var r := Inserted(logs, f);
    forall i | 0 <= i < |r|
      ensures r[i].finished <==> r[i].from in cleanup
    {
      InsertedIs(logs, f, i);
    }
  }

  lemma InsertedKeepsListed(logs: seq<LogFile>, f: LogFile, cleanup: seq<nat>)
    requires Listed(logs, cleanup)
    ensures Listed(Inserted(logs, f), cleanup)
  {
    var p := Place(logs, f.from);
    forall k | 0 <= k < |cleanup|
      ensures IsStart(Inserted(logs, f), cleanup[k])
    {
      assert IsStart(logs, cleanup[k]);
      var i :| 0 <= i < |logs| && logs[i].from == cleanup[k];
      InsertedIs(logs, f, if i < p then i else i + 1);
    }
  }

  lemma NewStart(logs: seq<LogFile>, cleanup: seq<nat>, index: nat)
    requires Sorted(logs) && Outside(logs, index) && Listed(logs, cleanup)
    ensures index !in cleanup
  {
    forall k | 0 <= k < |cleanup|
      ensures cleanup[k] != index
    {
      assert IsStart(logs, cleanup[k]);
    }
  }

  lemma CreateWaits(c: Config, fs: Files, d: MilestoneData, limit: Option<nat>)
    requires Waiting(fs) && Outside(fs.logs, d.index)
    requires d.index < if limit.Some? then limit.value else MAX_INDEX
    ensures Waiting(CreateAndAppend(c, fs, d, limit))
  {
    var f := AppendLine(c, Create(d.index, limit), d);
    if f.upper != f.to {
      var logs := Inserted(fs.logs, f);
      NewStart(fs.logs, fs.cleanup, d.index);
      InsertedApart(fs.logs, f);
      InsertedKeepsMarked(fs.logs, f, fs.cleanup);
      InsertedKeepsListed(fs.logs, f, fs.cleanup);
      InsertedIs(fs.logs, f, |fs.logs|);
      LowerAllWaits(fs.(logs := logs));
    }
  }

  /** A file that may grow at `index` leaves room for it. */
  lemma OpenIsOutside(logs: seq<LogFile>, index: nat)
    requires Sorted(logs) && FindOpen(logs, index) < |logs|
    ensures Outside(logs, index)
  {
    var i := FindOpen(logs, index);
    forall k | 0 <= k < |logs|
      ensures logs[k].to <= index || index < logs[k].from
    {
      assert k < i ==> logs[k].upper <= logs[i].from;
      assert k > i ==> logs[i].upper <= logs[k].from;
    }
  }

  /** Changing a file within its limits, and marking it when it is finished. */
  lemma UpdateWaits(fs: Files, i: nat, g: LogFile)
    requires Ordered(fs) && i < |fs.logs|
    requires g.from == fs.logs[i].from && g.upper == fs.logs[i].upper && fs.logs[i].to <= g.to <= g.upper
    requires g.to == g.upper ==> g.finished
    ensures Waiting(fs.(logs := fs.logs[i := g], cleanup := if g.finished then [g.from] else []))
  {
    var logs := fs.logs[i := g];
    SortedRises(fs.logs);
    if g.finished {
      assert logs[i].from == g.from;
      assert IsStart(logs, [g.from][0]);
      assert forall k :: 0 <= k < |logs| && k != i ==> logs[k].from != g.from;
    }
  }

  lemma ExtendWaits(c: Config, fs: Files, d: MilestoneData)
    requires Ordered(fs) && FindOpen(fs.logs, d.index) < |fs.logs|
    ensures Waiting(Extend(c, fs, FindOpen(fs.logs, d.index), d))
  {
    var i := FindOpen(fs.logs, d.index);
    var f := fs.logs[i];
    OpenIsOutside(fs.logs, d.index);
    if c.lineLen(d) + f.len < c.maxLogSize {
      var g := AppendLine(c, f, d);
      UpdateWaits(fs, i, if g.upper == g.to then g.(finished := true) else g);
    } else {
      var t := fs.(logs := fs.logs[i := f.(finished := true)], cleanup := fs.cleanup + [f.from]);
      UpdateWaits(fs, i, f.(finished := true));
      assert fs.cleanup + [f.from] == [f.from];
      assert Outside(t.logs, d.index);
      CreateWaits(c, t, d, Some(f.upper));
    }
  }

  /** What a write relies on: the limit lies above the index, and the index is not inside an active file. */
  ghost predicate Fits(fs: Files, index: nat, limit: Option<nat>) {
    && index < (if limit.Some? then limit.value else MAX_INDEX)
    && Outside(fs.logs, index)
  }

  /** A write always succeeds, and keeps the order of the files. */
  lemma HandleDataOrders(c: Config, fs: Files, d: MilestoneData, limit: Option<nat>)
    requires Ordered(fs) && Fits(fs, d.index, limit)
    ensures HandleData(c, fs, d, limit).Some? && Ordered(HandleData(c, fs, d, limit).value)
  {
    if FindOpen(fs.logs, d.index) < |fs.logs| {
      ExtendWaits(c, fs, d);
    } else if !InProcessed(fs.processed, d.index) {
      CreateWaits(c, fs, d, limit);
    }
    CleanUpOrders(Write(c, fs, d, limit));
  }

  lemma CloseOrders(fs: Files, index: nat)
    requires Ordered(fs)
    ensures Ordered(CloseLogFile(fs, index))
  {
    var i := FindEnd(fs.logs, index);
    if i < |fs.logs| {
      SortedWithout(fs.logs, i);
      forall k | 0 <= k < |fs.logs| - 1
        ensures Without(fs.logs, i)[k].to < Without(fs.logs, i)[k].upper && !Without(fs.logs, i)[k].finished
      {
        WithoutAt(fs.logs, i, k);
      }
    }
  }
}
