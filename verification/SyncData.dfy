/** The sync table read as ranges: completed, synced but unlogged, and missing milestones. */
module SyncTable {
  import opened Types
  import opened Ranges

  /** A row of the sync table: the milestone is synced, and logged when `loggedBy` is set. */
  datatype SyncRow = SyncRow(index: nat, loggedBy: Option<nat>)

  /** The sync range of the configuration: `from` inclusive, `to` exclusive. */
  datatype SyncRange = SyncRange(from: nat, to: nat)

  // ------------------------------------------------------------------------------------------------------------
  // Rows and pages
  // ------------------------------------------------------------------------------------------------------------

  /** The rows of all pages in order. */
  ghost function Flatten<T>(pages: seq<seq<T>>): seq<T> {
    if pages == [] then [] else pages[0] + Flatten(pages[1..])
  }

  /** Rows as the table returns them: strictly descending and inside the sync range. */
  ghost predicate Rows(rows: seq<SyncRow>, range: SyncRange) {
    && (forall i :: 0 <= i < |rows| ==> range.from <= rows[i].index < range.to)
    && (forall i, j :: 0 <= i < j < |rows| ==> rows[j].index < rows[i].index)
  }

  ghost predicate Synced(rows: seq<SyncRow>, x: nat) {
    exists i :: 0 <= i < |rows| && rows[i].index == x
  }

  /** A row says that `x` is synced and, according to `logged`, logged or not. */
  ghost predicate Row(rows: seq<SyncRow>, logged: bool, x: nat) {
    exists i :: 0 <= i < |rows| && rows[i].index == x && rows[i].loggedBy.Some? == logged
  }

  lemma NextRow(rows: seq<SyncRow>, n: nat, row: SyncRow, rest: seq<SyncRow>)
    requires n <= |rows| && rows[n..] == [row] + rest
    ensures n < |rows| && rows[n] == row && rows[n + 1..] == rest
  {
    assert rows[n + 1..] == rows[n..][1..];
  }

  /** Fetched pages consumed row by row. */
  class PagedSyncData {
    var pages: seq<seq<SyncRow>>

    constructor (pages: seq<seq<SyncRow>>)
      ensures this.pages == pages
    {
      this.pages := pages;
    }

    /** The next row over all pages; exhausted pages, empty ones included, are dropped on the way. */
    method Next() returns (row: Option<SyncRow>)
      modifies this
      ensures row.None? <==> Flatten(old(pages)) == []
      ensures row.Some? ==> Flatten(old(pages)) == [row.value] + Flatten(pages)
      ensures row.None? ==> pages == []
    {
      while true
        invariant Flatten(pages) == Flatten(old(pages))
        decreases |pages|
      {
        if pages == [] {
          return None;
        }
        if pages[0] == [] {
          pages := pages[1..];
        } else {
          row := Some(pages[0][0]);
          ghost var before := pages;
          pages := pages[0 := pages[0][1..]];
          assert pages[1..] == before[1..];
          assert before[0] == [before[0][0]] + pages[0];
          assert Flatten(before) == [row.value] + (pages[0] + Flatten(pages[1..]));
          return;
        }
      }
    }
  }

  // ------------------------------------------------------------------------------------------------------------
  // Sync data as a value, and what taking the lowest range means
  // ------------------------------------------------------------------------------------------------------------

  /** The three range lists, each in descending order. */
  datatype Snapshot = Snapshot(completed: seq<Range>, unlogged: seq<Range>, gaps: seq<Range>)
  {
    function Size(): nat {
      |unlogged| + |gaps|
    }
  }

  /** `s` tells apart exactly the logged, the unlogged and the missing milestones of the range. */
  ghost predicate Describes(s: Snapshot, rows: seq<SyncRow>, range: SyncRange) {
    && ListsRows(s.completed, rows, true)
    && ListsRows(s.unlogged, rows, false)
    && ListsMissing(s.gaps, rows, range)
  }

  /** The maximal runs of the logged rows, or of the unlogged ones, in descending order. */
  ghost predicate ListsRows(ranges: seq<Range>, rows: seq<SyncRow>, logged: bool) {
    Descending(ranges) && forall x: nat :: Covers(ranges, x) <==> Row(rows, logged, x)
  }

  /** The maximal runs of the indexes of the range without a row, in descending order. */
  ghost predicate ListsMissing(ranges: seq<Range>, rows: seq<SyncRow>, range: SyncRange) {
    Descending(ranges) && forall x: nat :: Covers(ranges, x) <==> range.from <= x < range.to && !Synced(rows, x)
  }

  /** The lowest gap or unlogged range. */
  function Lowest(s: Snapshot): Option<Range> {
    if s.gaps == [] && s.unlogged == [] then None
    else if TakesGap(s) then Some(s.gaps[|s.gaps| - 1])
    else Some(s.unlogged[|s.unlogged| - 1])
  }

  predicate TakesGap(s: Snapshot) {
    s.gaps != [] && (s.unlogged == [] || s.gaps[|s.gaps| - 1].start < s.unlogged[|s.unlogged| - 1].start)
  }

  function DropLowest(s: Snapshot): (t: Snapshot)
    ensures Lowest(s).Some? ==> t.Size() + 1 == s.Size()
    ensures Lowest(s).None? ==> t == s
  {
    if Lowest(s).None? then s
    else if TakesGap(s) then s.(gaps := s.gaps[..|s.gaps| - 1])
    else s.(unlogged := s.unlogged[..|s.unlogged| - 1])
  }

  /** Extends `r` by the ranges that touch it, one after the other. */
  function Absorb(r: Range, s: Snapshot): (out: (Range, Snapshot))
    decreases s.Size()
    ensures out.1.Size() <= s.Size()
  {
    var l := Lowest(s);
    if l.Some? && l.value.start == r.end then Absorb(Range(r.start, l.value.end), DropLowest(s)) else (r, s)
  }

  /** The lowest mixed run of gaps and unlogged ranges, and what is left. */
  function TakeUncomplete(s: Snapshot): (out: (Option<Range>, Snapshot))
    ensures out.0.Some? ==> out.1.Size() < s.Size()
    ensures out.0.None? ==> out.1 == s && s.Size() == 0
  {
    match Lowest(s)
    case None => (None, s)
    case Some(r) =>
      var (run, rest) := Absorb(r, DropLowest(s));
      (Some(run), rest)
  }

  /** The lowest gap, and what is left. */
  function TakeGap(s: Snapshot): (out: (Option<Range>, Snapshot))
    ensures out.0.Some? ==> out.1.Size() < s.Size()
    ensures out.0.None? ==> out.1 == s
  {
    if s.gaps == [] then (None, s) else (Some(s.gaps[|s.gaps| - 1]), s.(gaps := s.gaps[..|s.gaps| - 1]))
  }

  /** All runs taken until none is left. */
  function Drain(s: Snapshot): seq<Range>
    decreases s.Size()
  {
    var (r, rest) := TakeUncomplete(s);
    if r.None? then [] else [r.value] + Drain(rest)
  }

  // ------------------------------------------------------------------------------------------------------------
  // The imperative form
  // ------------------------------------------------------------------------------------------------------------

  class SyncData {
    var completed: seq<Range>
    var syncedButUnlogged: seq<Range>
    var gaps: seq<Range>

    ghost function View(): Snapshot
      reads this
    {
      Snapshot(completed, syncedButUnlogged, gaps)
    }

    constructor ()
      ensures View() == Snapshot([], [], [])
    {
      completed, syncedButUnlogged, gaps := [], [], [];
    }

    /** Folds the fetched pages, whatever the split into pages, into the three lists. */
    static method TryFetch(fetched: seq<seq<SyncRow>>, range: SyncRange) returns (d: SyncData)
      requires 1 <= range.from
      ensures fresh(d)
      ensures d.View() == FoldAll(Flatten(fetched), range)
    {
      ghost var rows := Flatten(fetched);
      d := new SyncData();
      var pages := new PagedSyncData(fetched);
      var first := pages.Next();
      if first.None? {
        d.ProcessGaps(range.to, range.from - 1);
        return;
      }
      d.AddRow(range.to, None, first.value, rows, 0, range);
      var preMs, preLb := first.value.index, first.value.loggedBy;
      ghost var n := 1;
      while true
        invariant fresh(d) && fresh(pages)
        invariant 1 <= n <= |rows|
        invariant rows[n..] == Flatten(pages.pages)
        invariant preMs == PreIndex(rows, n, range) && preLb == PreLoggedBy(rows, n)
        invariant d.Folded(rows, n, range)
        decreases |rows| - n
      {
        var row := pages.Next();
        if row.None? {
          break;
        }
        NextRow(rows, n, row.value, Flatten(pages.pages));
        d.AddRow(preMs, preLb, row.value, rows, n, range);
        preMs, preLb := row.value.index, row.value.loggedBy;
        n := n + 1;
      }
      assert n == |rows|;
      d.ProcessGaps(preMs, range.from - 1);
    }

    ghost predicate Folded(rows: seq<SyncRow>, n: nat, range: SyncRange)
      requires n <= |rows|
      reads this
    {
      && completed == FoldRanges(rows, n, true)
      && syncedButUnlogged == FoldRanges(rows, n, false)
      && gaps == FoldGaps(rows, n, range)
    }

    /** The gap between a row and the row before it, then the row itself. */
    method AddRow(preMs: nat, preLb: Option<nat>, row: SyncRow, ghost rows: seq<SyncRow>, ghost n: nat, ghost range: SyncRange)
      requires n < |rows| && row == rows[n]
      requires preMs == PreIndex(rows, n, range) && preLb == PreLoggedBy(rows, n)
      requires Folded(rows, n, range)
      modifies this
      ensures Folded(rows, n + 1, range)
    {
      ProcessGaps(preMs, row.index);
      ProcessRest(row.loggedBy, row.index, preLb);
    }

    method ProcessRest(loggedBy: Option<nat>, index: nat, preLb: Option<nat>)
      modifies this`completed, this`syncedButUnlogged
      ensures completed == if loggedBy.Some? then Proceeded(old(completed), index, preLb.Some?) else old(completed)
      ensures syncedButUnlogged
           == if loggedBy.None? then Proceeded(old(syncedButUnlogged), index, preLb.None?) else old(syncedButUnlogged)
    {
      if loggedBy.Some? {
        completed := Proceed(completed, index, preLb.Some?);
      } else {
        syncedButUnlogged := Proceed(syncedButUnlogged, index, preLb.None?);
      }
    }

    method ProcessGaps(preMs: nat, index: nat)
      modifies this`gaps
      ensures gaps == WithGap(old(gaps), index, preMs)
    {
      var gapStart := index + 1;
      if gapStart != preMs {
        gaps := gaps + [Range(gapStart, preMs)];
      }
    }

    static method Proceed(ranges: seq<Range>, index: nat, check: bool) returns (out: seq<Range>)
      ensures out == Proceeded(ranges, index, check)
    {
      var endMs := index + 1;
      if |ranges| > 0 {
        var last := ranges[|ranges| - 1];
        if check && last.start == endMs {
          out := ranges[|ranges| - 1 := last.(start := index)];
        } else {
          out := ranges + [Range(index, endMs)];
        }
      } else {
        out := ranges + [Range(index, endMs)];
      }
    }

    method TakeLowestGap() returns (r: Option<Range>)
      modifies this`gaps
      ensures (r, View()) == TakeGap(old(View()))
    {
      if gaps == [] {
        r := None;
      } else {
        r := Some(gaps[|gaps| - 1]);
        gaps := gaps[..|gaps| - 1];
      }
    }

    method TakeLowestGapOrUnlogged() returns (r: Option<Range>)
      modifies this`gaps, this`syncedButUnlogged
      ensures r == Lowest(old(View())) && View() == DropLowest(old(View()))
    {
      if gaps != [] && syncedButUnlogged != [] {
        if gaps[|gaps| - 1].start < syncedButUnlogged[|syncedButUnlogged| - 1].start {
          r := Some(gaps[|gaps| - 1]);
          gaps := gaps[..|gaps| - 1];
        } else {
          r := Some(syncedButUnlogged[|syncedButUnlogged| - 1]);
          syncedButUnlogged := syncedButUnlogged[..|syncedButUnlogged| - 1];
        }
      } else if gaps != [] {
        r := Some(gaps[|gaps| - 1]);
        gaps := gaps[..|gaps| - 1];
      } else if syncedButUnlogged != [] {
        r := Some(syncedButUnlogged[|syncedButUnlogged| - 1]);
        syncedButUnlogged := syncedButUnlogged[..|syncedButUnlogged| - 1];
      } else {
        r := None;
      }
    }

    method TakeLowestUncomplete() returns (r: Option<Range>)
      modifies this`gaps, this`syncedButUnlogged
      ensures (r, View()) == TakeUncomplete(old(View()))
    {
      var first := TakeLowestGapOrUnlogged();
      if first.None? {
        return None;
      }
      var preRange := first.value;
      while true
        invariant Absorb(preRange, View()) == Absorb(first.value, DropLowest(old(View())))
        decreases View().Size()
      {
        var next := GetLowestGapOrUnlogged();
        if next.Some? && next.value.start == preRange.end {
          preRange := preRange.(end := next.value.end);
          var _ := TakeLowestGapOrUnlogged();
        } else {
          return Some(preRange);
        }
      }
    }

    method GetLowestGapOrUnlogged() returns (r: Option<Range>)
      ensures r == Lowest(View())
    {
      if gaps != [] && syncedButUnlogged != [] {
        if gaps[|gaps| - 1].start < syncedButUnlogged[|syncedButUnlogged| - 1].start {
          r := Some(gaps[|gaps| - 1]);
        } else {
          r := Some(syncedButUnlogged[|syncedButUnlogged| - 1]);
        }
      } else if gaps != [] {
        r := Some(gaps[|gaps| - 1]);
      } else if syncedButUnlogged != [] {
        r := Some(syncedButUnlogged[|syncedButUnlogged| - 1]);
      } else {
        r := None;
      }
    }
  }

  // ------------------------------------------------------------------------------------------------------------
  // The fold of the rows
  // ------------------------------------------------------------------------------------------------------------

  /** One row added to a list: it lengthens the last range or opens a new one. */
  function Proceeded(ranges: seq<Range>, index: nat, check: bool): seq<Range> {
    if ranges != [] && check && ranges[|ranges| - 1].start == index + 1
    then ranges[..|ranges| - 1] + [Range(index, ranges[|ranges| - 1].end)]
    else ranges + [Range(index, index + 1)]
  }

  /** The indexes between two rows, if there are any, added as a gap. */
  function WithGap(gaps: seq<Range>, index: nat, preMs: nat): seq<Range> {
    if index + 1 != preMs then gaps + [Range(index + 1, preMs)] else gaps
  }

  /** A row below everything in the list: the list stays descending and gains exactly this row. */
  lemma ProceededAddsRow(ranges: seq<Range>, index: nat, check: bool)
    requires Descending(ranges)
    requires ranges != [] ==> index < ranges[|ranges| - 1].start
    requires ranges != [] && ranges[|ranges| - 1].start == index + 1 ==> check
    ensures var out := Proceeded(ranges, index, check);
            Descending(out) && forall x: nat :: Covers(out, x) <==> Covers(ranges, x) || x == index
  {
    forall x: nat
      ensures Covers(Proceeded(ranges, index, check), x) <==> Covers(ranges, x) || x == index
    {
      if ranges != [] && check && ranges[|ranges| - 1].start == index + 1 {
        var init, last := ranges[..|ranges| - 1], ranges[|ranges| - 1];
        assert ranges == init + [last];
        CoversSnoc(init, last, x);
        CoversSnoc(init, Range(index, last.end), x);
      } else {
        CoversSnoc(ranges, Range(index, index + 1), x);
      }
    }
  }

  /** A gap below everything in the list, and possibly empty. */
  lemma GapAddsRange(gaps: seq<Range>, index: nat, preMs: nat)
    requires Descending(gaps) && index < preMs
    requires gaps != [] ==> preMs < gaps[|gaps| - 1].start
    ensures Descending(WithGap(gaps, index, preMs))
    ensures forall x: nat :: Covers(WithGap(gaps, index, preMs), x) <==> Covers(gaps, x) || index < x < preMs
  {
    forall x: nat
      ensures Covers(WithGap(gaps, index, preMs), x) <==> Covers(gaps, x) || index < x < preMs
    {
      CoversSnoc(gaps, Range(index + 1, preMs), x);
    }
  }

  /** The first index of the lowest range is covered, so whatever the list describes bounds it. */
  lemma LastIsCovered(ranges: seq<Range>)
    requires Descending(ranges) && ranges != []
    ensures Covers(ranges, ranges[|ranges| - 1].start)
  {
    assert ranges[|ranges| - 1].Has(ranges[|ranges| - 1].start);
  }

  lemma RowSnoc(rows: seq<SyncRow>, n: nat, x: nat)
    requires n < |rows|
    ensures Synced(rows[..n + 1], x) <==> Synced(rows[..n], x) || x == rows[n].index
    ensures forall b :: Row(rows[..n + 1], b, x) <==> Row(rows[..n], b, x) || (x == rows[n].index && rows[n].loggedBy.Some? == b)
  {
    var short, long := rows[..n], rows[..n + 1];
    assert long == short + [rows[n]];
    assert long[n] == rows[n];
    if Synced(short, x) {
      var i :| 0 <= i < n && short[i].index == x;
      assert long[i].index == x;
    }
    forall b | Row(short, b, x)
      ensures Row(long, b, x)
    {
      var i :| 0 <= i < n && short[i].index == x && short[i].loggedBy.Some? == b;
      assert long[i] == short[i];
    }
  }

  /** Row `n` is below the first `n` rows, of which row `n - 1` is the lowest. */
  lemma RowIsBelow(rows: seq<SyncRow>, n: nat, range: SyncRange, logged: bool, x: nat)
    requires n < |rows| && Rows(rows, range)
    ensures Row(rows[..n], logged, x) ==> rows[n].index < x
    ensures Row(rows[..n], logged, x) && x == rows[n].index + 1 ==> PreLoggedBy(rows, n).Some? == logged
    ensures Row(rows[..n + 1], logged, x)
       <==> Row(rows[..n], logged, x) || (x == rows[n].index && rows[n].loggedBy.Some? == logged)
  {
    RowSnoc(rows, n, x);
  }

  lemma FoldRow(ranges: seq<Range>, rows: seq<SyncRow>, n: nat, range: SyncRange, logged: bool)
    requires n < |rows| && Rows(rows, range)
    requires rows[n].loggedBy.Some? == logged
    requires ListsRows(ranges, rows[..n], logged)
    ensures ListsRows(Proceeded(ranges, rows[n].index, PreLoggedBy(rows, n).Some? == logged), rows[..n + 1], logged)
  {
    var check := PreLoggedBy(rows, n).Some? == logged;
    if ranges != [] {
      LastIsCovered(ranges);
      RowIsBelow(rows, n, range, logged, ranges[|ranges| - 1].start);
    }
    ProceededAddsRow(ranges, rows[n].index, check);
    var out := Proceeded(ranges, rows[n].index, check);
    forall x: nat
      ensures Covers(out, x) <==> Row(rows[..n + 1], logged, x)
    {
      RowIsBelow(rows, n, range, logged, x);
    }
  }

  lemma SkipRow(ranges: seq<Range>, rows: seq<SyncRow>, n: nat, range: SyncRange, logged: bool)
    requires n < |rows| && Rows(rows, range)
    requires rows[n].loggedBy.Some? != logged
    requires ListsRows(ranges, rows[..n], logged)
    ensures ListsRows(ranges, rows[..n + 1], logged)
  {
    forall x: nat
      ensures Covers(ranges, x) <==> Row(rows[..n + 1], logged, x)
    {
      RowIsBelow(rows, n, range, logged, x);
    }
  }

  lemma PrefixIsAbove(rows: seq<SyncRow>, n: nat, range: SyncRange, x: nat)
    requires n < |rows| && Rows(rows, range)
    ensures rows[n].index < PreIndex(rows, n, range) <= range.to
    ensures Synced(rows[..n], x) ==> PreIndex(rows, n, range) <= x < range.to
    ensures x == PreIndex(rows, n, range) && x < range.to ==> Synced(rows[..n], x)
    ensures Synced(rows[..n + 1], x) <==> Synced(rows[..n], x) || x == rows[n].index
  {
    RowSnoc(rows, n, x);
    if n > 0 {
      assert rows[..n][n - 1] == rows[n - 1];
    }
  }

  lemma FoldGap(gaps: seq<Range>, rows: seq<SyncRow>, n: nat, range: SyncRange)
    requires n < |rows| && Rows(rows, range)
    requires ListsMissing(gaps, rows[..n], SyncRange(PreIndex(rows, n, range), range.to))
    ensures ListsMissing(WithGap(gaps, rows[n].index, PreIndex(rows, n, range)),
                         rows[..n + 1], SyncRange(rows[n].index, range.to))
  {
    var pre := PreIndex(rows, n, range);
    PrefixIsAbove(rows, n, range, pre);
    if gaps != [] { LastIsCovered(gaps); }
    GapAddsRange(gaps, rows[n].index, pre);
    var out := WithGap(gaps, rows[n].index, pre);
    forall x: nat
      ensures Covers(out, x) <==> rows[n].index <= x < range.to && !Synced(rows[..n + 1], x)
    {
      PrefixIsAbove(rows, n, range, x);
    }
  }

  /** The logged (or unlogged) list after the first `n` rows: each row is checked against the row before it. */
  function FoldRanges(rows: seq<SyncRow>, n: nat, logged: bool): seq<Range>
    requires n <= |rows|
  {
    if n == 0 then []
    else if rows[n - 1].loggedBy.Some? == logged
    then Proceeded(FoldRanges(rows, n - 1, logged), rows[n - 1].index, PreLoggedBy(rows, n - 1).Some? == logged)
    else FoldRanges(rows, n - 1, logged)
  }

  /** The logged flag of the row before row `n`; the first row has none before it. */
  function PreLoggedBy(rows: seq<SyncRow>, n: nat): Option<nat>
    requires n <= |rows|
  {
    if n == 0 then None else rows[n - 1].loggedBy
  }

  /** The gaps above row `n - 1`. */
  function FoldGaps(rows: seq<SyncRow>, n: nat, range: SyncRange): seq<Range>
    requires n <= |rows|
  {
    if n == 0 then [] else WithGap(FoldGaps(rows, n - 1, range), rows[n - 1].index, PreIndex(rows, n - 1, range))
  }

  /** The index of the row before row `n`; for the first row the upper bound of the range. */
  function PreIndex(rows: seq<SyncRow>, n: nat, range: SyncRange): nat
    requires n <= |rows|
  {
    if n == 0 then range.to else rows[n - 1].index
  }

  /** The three lists after all rows and the gap below the lowest row. */
  function FoldAll(rows: seq<SyncRow>, range: SyncRange): Snapshot
    requires 1 <= range.from
  {
    Snapshot(FoldRanges(rows, |rows|, true), FoldRanges(rows, |rows|, false),
             WithGap(FoldGaps(rows, |rows|, range), range.from - 1, PreIndex(rows, |rows|, range)))
  }

  lemma {:induction false} FoldListsRows(rows: seq<SyncRow>, n: nat, range: SyncRange, logged: bool)
    requires n <= |rows| && Rows(rows, range)
    ensures ListsRows(FoldRanges(rows, n, logged), rows[..n], logged)
  {
    if n > 0 {
      var m := n - 1;
      FoldListsRows(rows, m, range, logged);
      var ranges, out := FoldRanges(rows, m, logged), FoldRanges(rows, n, logged);
      if rows[m].loggedBy.Some? == logged {
        assert out == Proceeded(ranges, rows[m].index, PreLoggedBy(rows, m).Some? == logged);
        FoldRow(ranges, rows, m, range, logged);
      } else {
        assert out == ranges;
        SkipRow(ranges, rows, m, range, logged);
      }
    }
  }

  lemma {:induction false} FoldListsMissing(rows: seq<SyncRow>, n: nat, range: SyncRange)
    requires n <= |rows| && Rows(rows, range)
    ensures ListsMissing(FoldGaps(rows, n, range), rows[..n], SyncRange(PreIndex(rows, n, range), range.to))
  {
    if n > 0 {
      FoldListsMissing(rows, n - 1, range);
      FoldGap(FoldGaps(rows, n - 1, range), rows, n - 1, range);
    }
  }

  lemma FoldAllListsMissing(rows: seq<SyncRow>, range: SyncRange)
    requires 1 <= range.from < range.to && Rows(rows, range)
    ensures ListsMissing(FoldAll(rows, range).gaps, rows, range)
  {
    var gaps, low := FoldGaps(rows, |rows|, range), PreIndex(rows, |rows|, range);
    FoldListsMissing(rows, |rows|, range);
    if gaps != [] { LastIsCovered(gaps); }
    GapAddsRange(gaps, range.from - 1, low);
    var out := FoldAll(rows, range).gaps;
    forall x: nat
      ensures Covers(out, x) <==> range.from <= x < range.to && !Synced(rows, x)
    {
      NoRowBelow(rows, range, x);
    }
  }

  lemma NoRowBelow(rows: seq<SyncRow>, range: SyncRange, x: nat)
    requires Rows(rows, range)
    ensures rows[..|rows|] == rows
    ensures Synced(rows, x) ==> range.from <= PreIndex(rows, |rows|, range) <= x < range.to
    ensures x == PreIndex(rows, |rows|, range) && x < range.to ==> Synced(rows, x)
  {
  }

  /** Main result of the fold: whatever the rows, the three lists tell apart logged, unlogged and missing milestones. */
  lemma FoldAllDescribesRows(rows: seq<SyncRow>, range: SyncRange)
    requires 1 <= range.from < range.to && Rows(rows, range)
    ensures Describes(FoldAll(rows, range), rows, range)
  {
    assert rows[..|rows|] == rows;
    FoldListsRows(rows, |rows|, range, true);
    FoldListsRows(rows, |rows|, range, false);
    FoldAllListsMissing(rows, range);
  }

  // ------------------------------------------------------------------------------------------------------------
  // What the lists say
  // ------------------------------------------------------------------------------------------------------------

  /** The three lists partition the sync range: every index of it lies in exactly one list, and no other index in any. */
  lemma ListsPartitionRange(s: Snapshot, rows: seq<SyncRow>, range: SyncRange, x: nat)
    requires Rows(rows, range) && Describes(s, rows, range)
    ensures range.from <= x < range.to <==> Covers(s.completed, x) || Covers(s.unlogged, x) || Covers(s.gaps, x)
    ensures !(Covers(s.completed, x) && Covers(s.unlogged, x))
    ensures !(Covers(s.completed, x) && Covers(s.gaps, x))
    ensures !(Covers(s.unlogged, x) && Covers(s.gaps, x))
  {
    if Synced(rows, x) {
      var i :| 0 <= i < |rows| && rows[i].index == x;
      assert Row(rows, rows[i].loggedBy.Some?, x);
    }
  }

  // ------------------------------------------------------------------------------------------------------------
  // Draining the uncomplete runs
  // ------------------------------------------------------------------------------------------------------------

  /** `x` still has to be completed: it is missing or unlogged. */
  ghost predicate Open(s: Snapshot, x: nat) {
    Covers(s.gaps, x) || Covers(s.unlogged, x)
  }

  ghost predicate Tidy(s: Snapshot) {
    && Descending(s.gaps) && Descending(s.unlogged)
    && forall x: nat :: !(Covers(s.gaps, x) && Covers(s.unlogged, x))
  }

  lemma LastRange(rs: seq<Range>, x: nat)
    requires Descending(rs) && rs != []
    ensures var last := rs[|rs| - 1];
            && last.start < last.end
            && Descending(rs[..|rs| - 1])
            && (Covers(rs, x) <==> last.Has(x) || Covers(rs[..|rs| - 1], x))
            && (Covers(rs[..|rs| - 1], x) ==> last.end < x)
  {
    assert rs == rs[..|rs| - 1] + [rs[|rs| - 1]];
    CoversSnoc(rs[..|rs| - 1], rs[|rs| - 1], x);
  }

  /** Taking the lowest range takes exactly its indexes, and everything left lies above it. */
  lemma LowestSplits(s: Snapshot, x: nat)
    requires Tidy(s) && Lowest(s).Some?
    ensures var r := Lowest(s).value;
            && r.start < r.end
            && (Open(s, x) <==> r.Has(x) || Open(DropLowest(s), x))
            && (Open(DropLowest(s), x) ==> r.end <= x)
  {
    var r := Lowest(s).value;
    if s.gaps != [] { LastRange(s.gaps, x); }
    if s.unlogged != [] { LastRange(s.unlogged, x); }
    if s.gaps != [] && s.unlogged != [] {
      var other := if TakesGap(s) then s.unlogged[|s.unlogged| - 1] else s.gaps[|s.gaps| - 1];
      assert other.Has(other.start);
      assert r.Has(other.start) ==> Covers(s.gaps, other.start) && Covers(s.unlogged, other.start);
    }
  }

  lemma DropLowestIsTidy(s: Snapshot)
    requires Tidy(s)
    ensures Tidy(DropLowest(s))
  {
    forall x: nat
      ensures !(Covers(DropLowest(s).gaps, x) && Covers(DropLowest(s).unlogged, x))
    {
      if s.gaps != [] { LastRange(s.gaps, x); }
      if s.unlogged != [] { LastRange(s.unlogged, x); }
    }
  }

  /** Nothing open lies below or touches the run from below. */
  ghost predicate Above(s: Snapshot, bound: nat) {
    forall x: nat :: Open(s, x) ==> bound <= x
  }

  lemma {:induction false} AbsorbTakesRun(r: Range, s: Snapshot, x: nat)
    requires Tidy(s) && r.start < r.end && Above(s, r.end)
    ensures var (run, rest) := Absorb(r, s);
            && run.start == r.start && r.end <= run.end
            && Tidy(rest)
            && (r.Has(x) || Open(s, x) <==> run.Has(x) || Open(rest, x))
            && (Open(rest, x) ==> run.end < x)
    decreases s.Size()
  {
    var l := Lowest(s);
    if l.Some? {
      LowestSplits(s, x);
      if l.value.start == r.end {
        DropLowestIsTidy(s);
        forall y: nat | Open(DropLowest(s), y)
          ensures l.value.end <= y
        {
          LowestSplits(s, y);
        }
        AbsorbTakesRun(Range(r.start, l.value.end), DropLowest(s), x);
      } else {
        assert Open(s, l.value.start) by { LowestSplits(s, l.value.start); }
      }
    }
  }

  /** One take: a nonempty run of open indexes; what is left is open as before and lies strictly above the run. */
  lemma TakeUncompleteTakesRun(s: Snapshot, x: nat)
    requires Tidy(s) && TakeUncomplete(s).0.Some?
    ensures var (r, rest) := TakeUncomplete(s);
            && r.value.start < r.value.end
            && Tidy(rest)
            && (Open(s, x) <==> r.value.Has(x) || Open(rest, x))
            && (Open(rest, x) ==> r.value.end < x)
  {
    var l := Lowest(s).value;
    LowestSplits(s, x);
    DropLowestIsTidy(s);
    forall y: nat | Open(DropLowest(s), y)
      ensures l.end <= y
    {
      LowestSplits(s, y);
    }
    AbsorbTakesRun(l, DropLowest(s), x);
  }

  /** Taking until nothing is left yields ascending runs that never touch and cover exactly what was open. */
  lemma {:induction false} DrainTakesAll(s: Snapshot)
    requires Tidy(s)
    ensures Ascending(Drain(s))
    ensures forall x: nat :: Covers(Drain(s), x) <==> Open(s, x)
    decreases s.Size()
  {
    var (r, rest) := TakeUncomplete(s);
    if r.Some? {
      TakeUncompleteTakesRun(s, 0);
      DrainTakesAll(rest);
      var runs := Drain(rest);
      if runs != [] {
        assert runs[0].Has(runs[0].start);
        TakeUncompleteTakesRun(s, runs[0].start);
      }
      AscendingCons(r.value, runs);
      forall x: nat
        ensures Covers([r.value] + runs, x) <==> Open(s, x)
      {
        TakeUncompleteTakesRun(s, x);
        CoversCons(r.value, runs, x);
      }
    }
  }

  lemma DescribedIsTidy(s: Snapshot, rows: seq<SyncRow>, range: SyncRange)
    requires Rows(rows, range) && Describes(s, rows, range)
    ensures Tidy(s)
    ensures forall x: nat :: Open(s, x) <==> range.from <= x < range.to && !Covers(s.completed, x)
  {
    forall x: nat
      ensures !(Covers(s.gaps, x) && Covers(s.unlogged, x))
      ensures Open(s, x) <==> range.from <= x < range.to && !Covers(s.completed, x)
    {
      ListsPartitionRange(s, rows, range, x);
    }
  }

  /** Main result: whatever the rows, draining the sync data yields, in ascending order, exactly the maximal runs of
      the milestones of the range that are not logged. */
  lemma DrainIsMaximalRuns(rows: seq<SyncRow>, range: SyncRange, runs: seq<Range>)
    requires 1 <= range.from < range.to && Rows(rows, range)
    requires Ascending(runs)
    requires forall x: nat :: Covers(runs, x) <==> range.from <= x < range.to && !Row(rows, true, x)
    ensures Drain(FoldAll(rows, range)) == runs
  {
    var s := FoldAll(rows, range);
    FoldAllDescribesRows(rows, range);
    DescribedIsTidy(s, rows, range);
    DrainTakesAll(s);
    AscendingIsUnique(Drain(s), runs);
  }
}
