/** Merging sorted log files into files below a size limit, as functions over values. */
module MergerSpec {
  import opened Types

  /** A line of a log file: the milestone index it parses to, if it does, its content and its length in bytes. */
  datatype Line = Line(index: Option<nat>, content: nat, bytes: nat)

  /** A log file: the range its name claims, its lines, and whether it is finalized. */
  datatype File = File(start: nat, end: nat, lines: seq<Line>, finalized: bool)

  /** The outputs so far, in order, and the file that is being written. */
  datatype State = State(closed: seq<File>, active: File)

  function Size(lines: seq<Line>): nat {
    if lines == [] then 0 else Size(lines[..|lines| - 1]) + lines[|lines| - 1].bytes
  }

  /** The name tells the truth: line `i` is milestone `start + i`, and the last one is `end - 1`. */
  ghost predicate Truthful(f: File) {
    && f.start < f.end && |f.lines| == f.end - f.start
    && forall i :: 0 <= i < |f.lines| ==> f.lines[i].index == Some(f.start + i)
  }

  function Append(f: File, line: Line): File {
    f.(end := f.end + 1, lines := f.lines + [line])
  }

  function NewFile(index: nat, line: Line): File {
    File(index, index + 1, [line], false)
  }

  /** A file opened for writing is not finalized any more. */
  function Opened(f: File): File {
    f.(finalized := false)
  }

  function Finalize(s: State, active: File): State {
    State(s.closed + [s.active.(finalized := true)], active)
  }

  /** Consumes the lines of `f` from line `k` on. A line that fits is appended if it continues the active file, and else
      skipped; a line that does not fit finalizes the active file. If it is the first line, `f` itself goes on as the
      active file. */
  function MergeFrom(max: nat, s: State, f: File, k: nat): State
    requires k <= |f.lines|
    decreases |f.lines| - k
  {
    if k == |f.lines| then s
    else if Size(s.active.lines) + f.lines[k].bytes < max then
      MergeFrom(max, if f.start + k == s.active.end then s.(active := Append(s.active, f.lines[k])) else s, f, k + 1)
    else if k > 0 then
      MergeFrom(max, Finalize(s, NewFile(f.start + k, f.lines[k])), f, k + 1)
    else
      Finalize(s, Opened(f))
  }

  /** The next file: merged when it continues or overlaps the active file; else it becomes the active file. */
  function TakeIn(max: nat, s: State, f: File): State {
    if f.start <= s.active.end then MergeFrom(max, s, f, 0)
    else State(s.closed + [s.active], Opened(f))
  }

  function TakeAll(max: nat, s: State, fs: seq<File>): State
    decreases |fs|
  {
    if fs == [] then s else TakeAll(max, TakeIn(max, s, fs[0]), fs[1..])
  }

  /** The files left after merging all of them. */
  function Merged(max: nat, fs: seq<File>): seq<File> {
    if fs == [] then []
    else
      var end := TakeAll(max, State([], Opened(fs[0])), fs[1..]);
      Outputs(end)
  }

  function Outputs(s: State): seq<File> {
    s.closed + [s.active]
  }

  // ------------------------------------------------------------------------------------------------------------
  // No milestone is lost
  // ------------------------------------------------------------------------------------------------------------

  ghost predicate Has(fs: seq<File>, x: nat) {
    exists i :: 0 <= i < |fs| && fs[i].start <= x < fs[i].end
  }

  ghost predicate AllTruthful(fs: seq<File>) {
    forall i :: 0 <= i < |fs| ==> Truthful(fs[i])
  }

  /** The files are sorted by their start. */
  ghost predicate InOrder(fs: seq<File>) {
    forall i, j :: 0 <= i < j < |fs| ==> fs[i].start <= fs[j].start
  }

  lemma HasSnoc(fs: seq<File>, f: File, x: nat)
    ensures Has(fs + [f], x) <==> Has(fs, x) || f.start <= x < f.end
  {
    if f.start <= x < f.end {
      assert (fs + [f])[|fs|] == f;
    }
    if Has(fs, x) {
      var i :| 0 <= i < |fs| && fs[i].start <= x < fs[i].end;
      assert (fs + [f])[i] == fs[i];
    }
  }

  /** From `from` on the outputs have every milestone up to the end of the active file. */
  ghost predicate Unbroken(s: State, from: nat) {
    forall x: nat :: from <= x < s.active.end ==> Has(Outputs(s), x)
  }

  lemma AppendIsTruthful(f: File, line: Line)
    requires Truthful(f) && line.index == Some(f.end)
    ensures Truthful(Append(f, line))
  {
  }

  /** One line of a file: it is in the outputs afterwards, whatever happens to it. */
  lemma MergeLineKeeps(max: nat, s: State, f: File, k: nat, x: nat)
    requires Truthful(f) && k < |f.lines| && f.start + k <= s.active.end
    requires Unbroken(s, f.start) && s.active.start < s.active.end
    ensures var appended := if f.start + k == s.active.end then s.(active := Append(s.active, f.lines[k])) else s;
            Has(Outputs(appended), x) <==> Has(Outputs(s), x) || x == f.start + k
    ensures Has(Outputs(Finalize(s, NewFile(f.start + k, f.lines[k]))), x) <==> Has(Outputs(s), x) || x == f.start + k
  {
    HasSnoc(s.closed, s.active, x);
    HasSnoc(s.closed, Append(s.active, f.lines[k]), x);
    HasSnoc(s.closed, s.active.(finalized := true), x);
    HasSnoc(s.closed + [s.active.(finalized := true)], NewFile(f.start + k, f.lines[k]), x);
  }

  ghost predicate Fine(s: State, from: nat) {
    AllTruthful(Outputs(s)) && Unbroken(s, from)
  }

  lemma TruthfulActive(s: State, active: File)
    requires AllTruthful(Outputs(s)) && Truthful(active)
    ensures AllTruthful(Outputs(s.(active := active))) && AllTruthful(Outputs(Finalize(s, active)))
    ensures Truthful(s.active)
  {
    var out, was := Outputs(Finalize(s, active)), Outputs(s);
    assert was[|s.closed|] == s.active;
    assert forall i :: 0 <= i < |s.closed| ==> was[i] == s.closed[i];
    assert forall i :: 0 <= i < |s.closed| ==> out[i] == s.closed[i];
  }

  /** After one line: the outputs are fine, and have exactly this milestone more. */
  lemma MergeLine(max: nat, s: State, f: File, k: nat)
    requires Truthful(f) && k < |f.lines| && f.start + k <= s.active.end && Fine(s, f.start)
    ensures var appended := if f.start + k == s.active.end then s.(active := Append(s.active, f.lines[k])) else s;
            Fine(appended, f.start) && f.start + k < appended.active.end
    ensures var begun := Finalize(s, NewFile(f.start + k, f.lines[k]));
            Fine(begun, f.start) && f.start + k < begun.active.end
  {
    var line := f.lines[k];
    var appended := if f.start + k == s.active.end then s.(active := Append(s.active, line)) else s;
    var begun := Finalize(s, NewFile(f.start + k, line));
    TruthfulActive(s, NewFile(f.start + k, line));
    if f.start + k == s.active.end {
      AppendIsTruthful(s.active, line);
      TruthfulActive(s, Append(s.active, line));
    }
    forall x: nat
      ensures f.start <= x < appended.active.end ==> Has(Outputs(appended), x)
    {
      MergeLineKeeps(max, s, f, k, x);
    }
    forall x: nat
      ensures f.start <= x < begun.active.end ==> Has(Outputs(begun), x)
    {
      MergeLineKeeps(max, s, f, k, x);
    }
  }

  lemma {:induction false} MergeFromKeeps(max: nat, s: State, f: File, k: nat, x: nat)
    requires Truthful(f) && k <= |f.lines| && f.start + k <= s.active.end && Fine(s, f.start)
    ensures var t := MergeFrom(max, s, f, k);
            Fine(t, f.start) && (Has(Outputs(t), x) <==> Has(Outputs(s), x) || f.start + k <= x < f.end)
    decreases |f.lines| - k
  {
    if k < |f.lines| {
      TruthfulActive(s, f);
      var line := f.lines[k];
      MergeLine(max, s, f, k);
      MergeLineKeeps(max, s, f, k, x);
      if Size(s.active.lines) + line.bytes < max {
        var appended := if f.start + k == s.active.end then s.(active := Append(s.active, line)) else s;
        MergeFromKeeps(max, appended, f, k + 1, x);
      } else if k > 0 {
        MergeFromKeeps(max, Finalize(s, NewFile(f.start + k, line)), f, k + 1, x);
      } else {
        OpenKeeps(s, s.active.(finalized := true), f, x);
      }
    }
  }

  /** Closing the active file and going on with another one. */
  lemma OpenKeeps(s: State, closed: File, f: File, x: nat)
    requires Truthful(f) && AllTruthful(Outputs(s)) && closed.(finalized := false) == s.active.(finalized := false)
    ensures var t := State(s.closed + [closed], Opened(f));
            Fine(t, f.start) && (Has(Outputs(t), x) <==> Has(Outputs(s), x) || f.start <= x < f.end)
  {
    var t := State(s.closed + [closed], Opened(f));
    TruthfulActive(s, f);
    var out, was := Outputs(t), Outputs(s);
    assert forall i :: 0 <= i < |s.closed| ==> was[i] == s.closed[i] == out[i];
    HasSnoc(s.closed, s.active, x);
    HasSnoc(s.closed, closed, x);
    HasSnoc(s.closed + [closed], Opened(f), x);
    forall y: nat | f.start <= y < f.end
      ensures Has(out, y)
    {
      HasSnoc(s.closed + [closed], Opened(f), y);
    }
  }

  lemma {:induction false} TakeAllKeeps(max: nat, s: State, fs: seq<File>, from: nat, x: nat)
    requires AllTruthful(fs) && InOrder(fs) && Fine(s, from) && (fs != [] ==> from <= fs[0].start)
    ensures var t := TakeAll(max, s, fs);
            AllTruthful(Outputs(t)) && (Has(Outputs(t), x) <==> Has(Outputs(s), x) || Has(fs, x))
    decreases |fs|
  {
    if fs != [] {
      var f, t := fs[0], TakeIn(max, s, fs[0]);
      if f.start <= s.active.end {
        MergeFromKeeps(max, s, f, 0, x);
      } else {
        OpenKeeps(s, s.active, f, x);
      }
      TakeAllKeeps(max, t, fs[1..], f.start, x);
      HasCons(fs, x);
    }
  }

  lemma HasCons(fs: seq<File>, x: nat)
    requires fs != []
    ensures Has(fs, x) <==> fs[0].start <= x < fs[0].end || Has(fs[1..], x)
  {
    if Has(fs[1..], x) {
      var i :| 0 <= i < |fs[1..]| && fs[1..][i].start <= x < fs[1..][i].end;
      assert fs[i + 1].start <= x < fs[i + 1].end;
    }
  }

  /** Main result: merging truthful files, whatever their overlaps, yields truthful files with exactly the same
      milestones. */
  lemma MergingLosesNothing(max: nat, fs: seq<File>, x: nat)
    requires AllTruthful(fs) && InOrder(fs)
    ensures AllTruthful(Merged(max, fs)) && (Has(Merged(max, fs), x) <==> Has(fs, x))
  {
    if fs != [] {
      var s := State([], Opened(fs[0]));
      HasSnoc([], Opened(fs[0]), x);
      forall y: nat | fs[0].start <= y < fs[0].end
        ensures Has(Outputs(s), y)
      {
        HasSnoc([], Opened(fs[0]), y);
      }
      TakeAllKeeps(max, s, fs[1..], fs[0].start, x);
      HasCons(fs, x);
    }
  }

  // ------------------------------------------------------------------------------------------------------------
  // Files that do not overlap: the lines stay as they are
  // ------------------------------------------------------------------------------------------------------------

  /** All lines of all files in order. */
  ghost function Concat(fs: seq<File>): seq<Line> {
    if fs == [] then [] else Concat(fs[..|fs| - 1]) + fs[|fs| - 1].lines
  }

  ghost predicate NoOverlap(fs: seq<File>) {
    forall i, j :: 0 <= i < j < |fs| ==> fs[i].end <= fs[j].start
  }

  lemma ConcatSnoc(fs: seq<File>, f: File)
    ensures Concat(fs + [f]) == Concat(fs) + f.lines
  {
    assert (fs + [f])[..|fs|] == fs;
  }

  lemma OutputsConcat(s: State)
    ensures Concat(Outputs(s)) == Concat(s.closed) + s.active.lines
  {
    ConcatSnoc(s.closed, s.active);
  }

  lemma FinalizeConcat(s: State, closed: File, active: File)
    requires closed.lines == s.active.lines
    ensures Concat(Outputs(State(s.closed + [closed], active))) == Concat(Outputs(s)) + active.lines
  {
    ConcatSnoc(s.closed, closed);
    ConcatSnoc(s.closed + [closed], active);
    OutputsConcat(s);
  }

  lemma AppendConcat(s: State, line: Line)
    ensures Concat(Outputs(s.(active := Append(s.active, line)))) == Concat(Outputs(s)) + [line]
  {
    OutputsConcat(s);
    OutputsConcat(s.(active := Append(s.active, line)));
    assert Concat(s.closed) + (s.active.lines + [line]) == Concat(s.closed) + s.active.lines + [line];
  }

  lemma {:induction false} MergeFromConcat(max: nat, s: State, f: File, k: nat)
    requires Truthful(f) && k <= |f.lines| && f.start + k == s.active.end
    ensures var t := MergeFrom(max, s, f, k);
            Concat(Outputs(t)) == Concat(Outputs(s)) + f.lines[k..] && t.active.end == f.end
    decreases |f.lines| - k
  {
    if k == |f.lines| {
      assert Concat(Outputs(s)) + [] == Concat(Outputs(s));
    } else {
      var line := f.lines[k];
      assert f.lines[k..] == [line] + f.lines[k + 1..];
      var before := Concat(Outputs(s));
      assert before + [line] + f.lines[k + 1..] == before + f.lines[k..];
      if Size(s.active.lines) + line.bytes < max {
        AppendConcat(s, line);
        MergeFromConcat(max, s.(active := Append(s.active, line)), f, k + 1);
      } else if k > 0 {
        FinalizeConcat(s, s.active.(finalized := true), NewFile(f.start + k, line));
        MergeFromConcat(max, Finalize(s, NewFile(f.start + k, line)), f, k + 1);
      } else {
        FinalizeConcat(s, s.active.(finalized := true), Opened(f));
        assert f.lines[0..] == f.lines;
      }
    }
  }

  lemma TakeInConcat(max: nat, s: State, f: File)
    requires Truthful(f) && s.active.end <= f.start
    ensures Concat(Outputs(TakeIn(max, s, f))) == Concat(Outputs(s)) + f.lines && TakeIn(max, s, f).active.end == f.end
  {
    if f.start <= s.active.end {
      MergeFromConcat(max, s, f, 0);
      assert f.lines[0..] == f.lines;
    } else {
      FinalizeConcat(s, s.active, Opened(f));
    }
  }

  lemma TailInOrder(fs: seq<File>, end: nat)
    requires AllTruthful(fs) && NoOverlap(fs) && fs != [] && end == fs[0].end
    ensures AllTruthful(fs[1..]) && NoOverlap(fs[1..]) && (fs[1..] != [] ==> end <= fs[1..][0].start)
  {
  }

  lemma {:induction false} TakeAllConcat(max: nat, s: State, fs: seq<File>)
    requires AllTruthful(fs) && NoOverlap(fs) && (fs != [] ==> s.active.end <= fs[0].start)
    ensures Concat(Outputs(TakeAll(max, s, fs))) == Concat(Outputs(s)) + Concat(fs)
    decreases |fs|
  {
    var before := Concat(Outputs(s));
    if fs == [] {
      assert before + [] == before;
    } else {
      TakeInConcat(max, s, fs[0]);
      TailInOrder(fs, fs[0].end);
      TakeAllConcat(max, TakeIn(max, s, fs[0]), fs[1..]);
      ConcatCons(fs);
      Regroup(before, fs[0].lines, Concat(fs[1..]));
    }
  }

  lemma Regroup(a: seq<Line>, b: seq<Line>, c: seq<Line>)
    ensures (a + b) + c == a + (b + c)
  {
  }

  lemma {:induction false} ConcatCons(fs: seq<File>)
    requires fs != []
    ensures Concat(fs) == fs[0].lines + Concat(fs[1..])
    decreases |fs|
  {
    var n := |fs| - 1;
    if n == 0 {
      assert fs[..0] == [] && fs[1..] == [];
      assert [] + fs[0].lines == fs[0].lines + [];
    } else {
      ConcatCons(fs[..n]);
      assert fs[..n][1..] == fs[1..][..n - 1];
      assert fs[0].lines + (Concat(fs[1..][..n - 1]) + fs[n].lines) == (fs[0].lines + Concat(fs[1..][..n - 1])) + fs[n].lines;
    }
  }

  /** Main result: if the inputs do not overlap, the outputs hold exactly their lines, in the same order. */
  lemma MergingKeepsLines(max: nat, fs: seq<File>)
    requires AllTruthful(fs) && NoOverlap(fs)
    ensures Concat(Merged(max, fs)) == Concat(fs)
  {
    if fs != [] {
      var s := State([], Opened(fs[0]));
      OutputsConcat(s);
      assert fs[1..] != [] ==> fs[1..][0] == fs[1];
      TakeAllConcat(max, s, fs[1..]);
      ConcatCons(fs);
      assert [] + fs[0].lines == fs[0].lines;
    }
  }

  // ------------------------------------------------------------------------------------------------------------
  // Files that overlap: when the overlap stays
  // ------------------------------------------------------------------------------------------------------------

  /** From line `k` of `f` on, a line that the active file has already meets the size limit. */
  ghost predicate Clashes(max: nat, s: State, f: File, k: nat)
    requires k <= |f.lines|
    decreases |f.lines| - k
  {
    k < |f.lines| &&
    if Size(s.active.lines) + f.lines[k].bytes < max then
      Clashes(max, if f.start + k == s.active.end then s.(active := Append(s.active, f.lines[k])) else s, f, k + 1)
    else
      f.start + k < s.active.end || (k > 0 && Clashes(max, Finalize(s, NewFile(f.start + k, f.lines[k])), f, k + 1))
  }

  ghost predicate SomeClash(max: nat, s: State, fs: seq<File>)
    decreases |fs|
  {
    fs != [] && ((fs[0].start <= s.active.end && Clashes(max, s, fs[0], 0)) || SomeClash(max, TakeIn(max, s, fs[0]), fs[1..]))
  }

  lemma ReplacedOverlap(s: State, closed: File, active: File)
    requires closed.start == s.active.start <= closed.end == s.active.end
    ensures NoOverlap(Outputs(State(s.closed + [closed], active))) <==> NoOverlap(Outputs(s)) && s.active.end <= active.start
  {
    var n, was, out := |s.closed|, Outputs(s), Outputs(State(s.closed + [closed], active));
    assert forall i :: 0 <= i < n ==> was[i] == s.closed[i] == out[i];
    assert was[n] == s.active && out[n] == closed && out[n + 1] == active;
    assert NoOverlap(out) ==> out[n].end <= out[n + 1].start;
    if NoOverlap(was) && s.active.end <= active.start {
      forall i, j | 0 <= i < j < |out|
        ensures out[i].end <= out[j].start
      {
        if i < n { assert was[i].end <= was[n].start; }
      }
    }
  }

  lemma AppendedOverlap(s: State, line: Line)
    ensures NoOverlap(Outputs(s.(active := Append(s.active, line)))) <==> NoOverlap(Outputs(s))
  {
    var was, out := Outputs(s), Outputs(s.(active := Append(s.active, line)));
    assert forall i :: 0 <= i < |was| ==> out[i].start == was[i].start && (i < |was| - 1 ==> out[i].end == was[i].end);
  }

  lemma {:induction false} MergeFromOverlap(max: nat, s: State, f: File, k: nat)
    requires k <= |f.lines| && f.start + k <= s.active.end && s.active.start <= s.active.end && f.start <= f.end
    ensures NoOverlap(Outputs(MergeFrom(max, s, f, k))) <==> NoOverlap(Outputs(s)) && !Clashes(max, s, f, k)
    ensures var t := MergeFrom(max, s, f, k).active; t.start <= t.end
    decreases |f.lines| - k
  {
    if k < |f.lines| {
      var line := f.lines[k];
      var closed := s.active.(finalized := true);
      if Size(s.active.lines) + line.bytes < max {
        AppendedOverlap(s, line);
        MergeFromOverlap(max, if f.start + k == s.active.end then s.(active := Append(s.active, line)) else s, f, k + 1);
      } else if k > 0 {
        ReplacedOverlap(s, closed, NewFile(f.start + k, line));
        MergeFromOverlap(max, Finalize(s, NewFile(f.start + k, line)), f, k + 1);
      } else {
        ReplacedOverlap(s, closed, Opened(f));
      }
    }
  }

  lemma {:induction false} TakeAllOverlap(max: nat, s: State, fs: seq<File>)
    requires s.active.start <= s.active.end && forall i :: 0 <= i < |fs| ==> fs[i].start <= fs[i].end
    ensures NoOverlap(Outputs(TakeAll(max, s, fs))) <==> NoOverlap(Outputs(s)) && !SomeClash(max, s, fs)
    decreases |fs|
  {
    if fs != [] {
      if fs[0].start <= s.active.end {
        MergeFromOverlap(max, s, fs[0], 0);
      } else {
        ReplacedOverlap(s, s.active, Opened(fs[0]));
      }
      TakeAllOverlap(max, TakeIn(max, s, fs[0]), fs[1..]);
    }
  }

  /** Main result: the outputs are in order and disjoint, so that no milestone is in two of them, exactly when no line
      that the active file has already meets the size limit. */
  lemma MergingSeparatesIff(max: nat, fs: seq<File>)
    requires AllTruthful(fs) && fs != []
    ensures NoOverlap(Merged(max, fs)) <==> !SomeClash(max, State([], Opened(fs[0])), fs[1..])
  {
    TakeAllOverlap(max, State([], Opened(fs[0])), fs[1..]);
  }

  /** Ten bytes for each of the milestones. */
  function TenBytes(start: nat): File {
    File(start, start + 3, seq(3, i requires 0 <= i => Line(Some(start + i), 0, 10)), true)
  }

  /** An overlap that stays: milestones 2 and 3 are in both outputs. */
  lemma OverlapStays()
    ensures Merged(35, [TenBytes(1), TenBytes(2)]) == [TenBytes(1), Opened(TenBytes(2))]
    ensures AllTruthful([TenBytes(1), TenBytes(2)])
  {
    var f, g := TenBytes(1), TenBytes(2);
    var s := State([], Opened(f));
    SizeOfTen(f.lines);
    assert MergeFrom(35, s, g, 0) == Finalize(s, Opened(g));
    assert [f, g][1..] == [g];
    assert [] + [f] == [f];
    assert TakeAll(35, s, [g]) == TakeAll(35, TakeIn(35, s, g), []);
  }

  lemma {:induction false} SizeOfTen(lines: seq<Line>)
    requires forall i :: 0 <= i < |lines| ==> lines[i].bytes == 10
    ensures Size(lines) == 10 * |lines|
  {
    if lines != [] { SizeOfTen(lines[..|lines| - 1]); }
  }

  // ------------------------------------------------------------------------------------------------------------
  // Sizes and origin of the lines
  // ------------------------------------------------------------------------------------------------------------

  /** An output is below the limit, or has one line, or is an input nothing was appended to. */
  ghost predicate Bounded(max: nat, f: File, inputs: seq<File>) {
    Size(f.lines) < max || |f.lines| == 1 || exists i :: 0 <= i < |inputs| && inputs[i].lines == f.lines
  }

  ghost predicate FromInputs(f: File, inputs: seq<File>) {
    forall k :: 0 <= k < |f.lines| ==> InInputs(f.lines[k], inputs)
  }

  ghost predicate InInputs(line: Line, inputs: seq<File>) {
    exists i :: 0 <= i < |inputs| && line in inputs[i].lines
  }

  ghost predicate Tidy(max: nat, f: File, inputs: seq<File>) {
    Bounded(max, f, inputs) && FromInputs(f, inputs)
  }

  ghost predicate AllTidy(max: nat, s: State, inputs: seq<File>) {
    (forall i :: 0 <= i < |s.closed| ==> Tidy(max, s.closed[i], inputs)) && Tidy(max, s.active, inputs)
  }

  lemma InputIsTidy(max: nat, inputs: seq<File>, i: nat)
    requires i < |inputs|
    ensures Tidy(max, Opened(inputs[i]), inputs)
  {
    forall k | 0 <= k < |inputs[i].lines|
      ensures InInputs(inputs[i].lines[k], inputs)
    {
      assert inputs[i].lines[k] in inputs[i].lines;
    }
  }

  lemma AppendIsTidy(max: nat, f: File, line: Line, inputs: seq<File>)
    requires Tidy(max, f, inputs) && InInputs(line, inputs) && Size(f.lines) + line.bytes < max
    ensures Tidy(max, Append(f, line), inputs)
  {
    assert (f.lines + [line])[..|f.lines|] == f.lines;
  }

  lemma {:induction false} MergeFromIsTidy(max: nat, s: State, inputs: seq<File>, i: nat, k: nat)
    requires i < |inputs| && k <= |inputs[i].lines| && AllTidy(max, s, inputs)
    ensures AllTidy(max, MergeFrom(max, s, inputs[i], k), inputs)
    decreases |inputs[i].lines| - k
  {
    var f := inputs[i];
    if k < |f.lines| {
      var line := f.lines[k];
      assert line in f.lines;
      assert InInputs(line, inputs);
      var closed := s.active.(finalized := true);
      assert Tidy(max, closed, inputs);
      if Size(s.active.lines) + line.bytes < max {
        AppendIsTidy(max, s.active, line, inputs);
        MergeFromIsTidy(max, if f.start + k == s.active.end then s.(active := Append(s.active, line)) else s, inputs, i, k + 1);
      } else if k > 0 {
        assert Tidy(max, NewFile(f.start + k, line), inputs);
        MergeFromIsTidy(max, Finalize(s, NewFile(f.start + k, line)), inputs, i, k + 1);
      } else {
        InputIsTidy(max, inputs, i);
      }
    }
  }

  lemma {:induction false} TakeAllIsTidy(max: nat, s: State, inputs: seq<File>, n: nat)
    requires n <= |inputs| && AllTidy(max, s, inputs)
    ensures AllTidy(max, TakeAll(max, s, inputs[n..]), inputs)
    decreases |inputs| - n
  {
    if n < |inputs| {
      assert inputs[n..][1..] == inputs[n + 1..] && inputs[n..][0] == inputs[n];
      InputIsTidy(max, inputs, n);
      MergeFromIsTidy(max, s, inputs, n, 0);
      TakeAllIsTidy(max, TakeIn(max, s, inputs[n]), inputs, n + 1);
    }
  }

  /** Main result: every output that was appended to stays below the limit unless it has one line, and every line of the
      outputs is a line of the inputs. */
  lemma MergingBoundsFiles(max: nat, fs: seq<File>)
    ensures forall i :: 0 <= i < |Merged(max, fs)| ==> Bounded(max, Merged(max, fs)[i], fs) && FromInputs(Merged(max, fs)[i], fs)
  {
    if fs != [] {
      var s := State([], Opened(fs[0]));
      InputIsTidy(max, fs, 0);
      TakeAllIsTidy(max, s, fs, 1);
    }
  }

  // ------------------------------------------------------------------------------------------------------------
  // Files are merged wherever they can be
  // ------------------------------------------------------------------------------------------------------------

  /** Two outputs that follow each other: they are apart because of a gap, or because the first line of `b` would have made
      `a` reach the size limit; and exactly in the second case `a` is finalized. */
  ghost predicate Apart(max: nat, a: File, b: File) {
    b.lines != [] && if a.end < b.start then !a.finalized else a.finalized && Size(a.lines) + b.lines[0].bytes >= max
  }

  ghost predicate AllApart(max: nat, s: State) {
    && !s.active.finalized && s.active.lines != []
    && forall i :: 0 <= i < |s.closed| ==> Apart(max, s.closed[i], Outputs(s)[i + 1])
  }

  lemma AppendKeepsApart(max: nat, s: State, line: Line)
    requires AllApart(max, s)
    ensures AllApart(max, s.(active := Append(s.active, line)))
  {
    var t := s.(active := Append(s.active, line));
    forall i | 0 <= i < |t.closed|
      ensures Apart(max, t.closed[i], Outputs(t)[i + 1])
    {
      assert Apart(max, s.closed[i], Outputs(s)[i + 1]);
    }
  }

  lemma NextKeepsApart(max: nat, s: State, closed: File, active: File)
    requires AllApart(max, s) && closed.start == s.active.start && closed.lines == s.active.lines
    requires Apart(max, closed, active) && !active.finalized
    ensures AllApart(max, State(s.closed + [closed], active))
  {
    var t := State(s.closed + [closed], active);
    forall i | 0 <= i < |t.closed|
      ensures Apart(max, t.closed[i], Outputs(t)[i + 1])
    {
      if i < |s.closed| { assert Apart(max, s.closed[i], Outputs(s)[i + 1]); }
    }
  }

  lemma {:induction false} MergeFromKeepsApart(max: nat, s: State, f: File, k: nat)
    requires k <= |f.lines| && f.start + k <= s.active.end && AllApart(max, s)
    ensures AllApart(max, MergeFrom(max, s, f, k))
    decreases |f.lines| - k
  {
    if k < |f.lines| {
      var line := f.lines[k];
      if Size(s.active.lines) + line.bytes < max {
        if f.start + k == s.active.end { AppendKeepsApart(max, s, line); }
        MergeFromKeepsApart(max, if f.start + k == s.active.end then s.(active := Append(s.active, line)) else s, f, k + 1);
      } else if k > 0 {
        NextKeepsApart(max, s, s.active.(finalized := true), NewFile(f.start + k, line));
        MergeFromKeepsApart(max, Finalize(s, NewFile(f.start + k, line)), f, k + 1);
      } else {
        NextKeepsApart(max, s, s.active.(finalized := true), Opened(f));
      }
    }
  }

  lemma {:induction false} TakeAllKeepsApart(max: nat, s: State, fs: seq<File>)
    requires AllApart(max, s) && forall i :: 0 <= i < |fs| ==> fs[i].lines != []
    ensures AllApart(max, TakeAll(max, s, fs))
    decreases |fs|
  {
    if fs != [] {
      if fs[0].start <= s.active.end {
        MergeFromKeepsApart(max, s, fs[0], 0);
      } else {
        NextKeepsApart(max, s, s.active, Opened(fs[0]));
      }
      TakeAllKeepsApart(max, TakeIn(max, s, fs[0]), fs[1..]);
    }
  }

  /** Main result: two outputs that follow each other are apart only because of a gap between them or because they do not fit
      together; those finished because of the size limit are finalized, and no others. */
  lemma MergingLeavesApart(max: nat, fs: seq<File>)
    requires fs != [] && forall i :: 0 <= i < |fs| ==> fs[i].lines != []
    ensures var out := Merged(max, fs);
            && out != [] && !out[|out| - 1].finalized
            && forall i :: 0 <= i < |out| - 1 ==> Apart(max, out[i], out[i + 1])
  {
    var s := State([], Opened(fs[0]));
    TakeAllKeepsApart(max, s, fs[1..]);
    var t := TakeAll(max, s, fs[1..]);
    forall i | 0 <= i < |Outputs(t)| - 1
      ensures Apart(max, Outputs(t)[i], Outputs(t)[i + 1])
    {
      assert Outputs(t)[i] == t.closed[i];
    }
  }

  /** No file begins beyond the end of all files before it; the first of them ends at `end`. */
  ghost predicate NoGap(end: nat, fs: seq<File>)
    decreases |fs|
  {
    fs == [] || (fs[0].start <= end && NoGap(if end < fs[0].end then fs[0].end else end, fs[1..]))
  }

  ghost function AllBytes(fs: seq<File>): nat {
    if fs == [] then 0 else Size(fs[0].lines) + AllBytes(fs[1..])
  }

  lemma {:induction false} SizeCons(lines: seq<Line>)
    requires lines != []
    ensures Size(lines) == lines[0].bytes + Size(lines[1..])
    decreases |lines|
  {
    var n := |lines| - 1;
    if n == 0 {
      assert lines[..0] == [] && lines[1..] == [];
    } else {
      SizeCons(lines[..n]);
      assert lines[..n][1..] == lines[1..][..n - 1];
    }
  }

  lemma {:induction false} MergeFromFits(max: nat, s: State, f: File, k: nat)
    requires k <= |f.lines| && f.start + k <= s.active.end && |f.lines| == f.end - f.start
    requires Size(s.active.lines) + Size(f.lines[k..]) < max
    ensures var t := MergeFrom(max, s, f, k);
            && t.closed == s.closed && t.active.start == s.active.start
            && t.active.end == (if s.active.end < f.end then f.end else s.active.end)
            && Size(t.active.lines) <= Size(s.active.lines) + Size(f.lines[k..])
    decreases |f.lines| - k
  {
    if k < |f.lines| {
      var line := f.lines[k];
      SizeCons(f.lines[k..]);
      assert f.lines[k..][1..] == f.lines[k + 1..];
      assert (s.active.lines + [line])[..|s.active.lines|] == s.active.lines;
      MergeFromFits(max, if f.start + k == s.active.end then s.(active := Append(s.active, line)) else s, f, k + 1);
    }
  }

  lemma {:induction false} TakeAllFits(max: nat, s: State, fs: seq<File>)
    requires AllTruthful(fs) && NoGap(s.active.end, fs) && Size(s.active.lines) + AllBytes(fs) < max
    ensures TakeAll(max, s, fs).closed == s.closed
    decreases |fs|
  {
    if fs != [] {
      assert fs[0].lines[0..] == fs[0].lines;
      MergeFromFits(max, s, fs[0], 0);
      TakeAllFits(max, TakeIn(max, s, fs[0]), fs[1..]);
    }
  }

  /** Inputs without a gap that fit together become one file. */
  lemma FittingBecomesOne(max: nat, fs: seq<File>)
    requires fs != [] && AllTruthful(fs) && NoGap(fs[0].end, fs[1..]) && AllBytes(fs) < max
    ensures |Merged(max, fs)| == 1
  {
    TakeAllFits(max, State([], Opened(fs[0])), fs[1..]);
  }
}
