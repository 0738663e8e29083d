/** The merger: verifying a log file, and merging sorted log files. */
module MergerActor {
  import opened Types
  import Spec = MergerSpec

  datatype VerifyError = EmptyFile | InvalidRange | Malformatted(index: nat) | Missing(from: nat, to: nat) | Duplicate(index: nat) | Extra(num: nat)

  class LogFile {
    var start: nat
    var end: nat
    var lines: seq<Spec.Line>
    var len: nat
    var err: bool
    var finalized: bool

    ghost function View(): Spec.File
      reads this
    {
      Spec.File(start, end, lines, finalized)
    }

    /** The length is that of the lines. */
    ghost predicate Valid()
      reads this
    {
      len == Spec.Size(lines)
    }

    constructor (file: Spec.File)
      ensures Valid() && View() == file.(finalized := false) && !err
    {
      start, end, lines, len := file.start, file.end, file.lines, Spec.Size(file.lines);
      err, finalized := false, false;
    }

    method AppendLine(line: Spec.Line)
      requires Valid()
      modifies this
      ensures Valid() && View() == Spec.Append(old(View()), line) && err == old(err)
    {
      assert (lines + [line])[..|lines|] == lines;
      lines := lines + [line];
      end := end + 1;
      len := len + line.bytes;
    }

    /** Full verification: accepts exactly the files whose lines are the milestones from `start` on, in order, at least one
        and no more than the name claims; then the end is set to where the lines end. */
    method Verify() returns (e: Option<VerifyError>)
      requires Valid()
      requires forall i :: 0 <= i < |lines| ==> lines[i].bytes > 0
      modifies this
      ensures unchanged(this`start) && unchanged(this`lines) && unchanged(this`len) && unchanged(this`finalized)
      ensures !old(finalized) ==> (e.None? <==> Verified(old(View())))
      ensures !old(finalized) && e.None? ==> end == start + |lines| && Spec.Truthful(View()) && err == old(err)
      ensures !old(finalized) && e.Some? ==> end == old(end) && err
      ensures old(finalized) ==> e.None? && end == old(end)
    {
      if finalized {
        return None;
      }
      if len == 0 {
        SizeIsPositive(lines);
        err := true;
        return Some(EmptyFile);
      }
      if start >= end {
        err := true;
        return Some(InvalidRange);
      }
      SizeIsPositive(lines);
      var estIdx, extra := start, 0;
      for i := 0 to |lines|
        invariant estIdx <= end && estIdx == start + if i < end - start then i else end - start
        invariant extra == 0 <==> i <= end - start && forall k :: 0 <= k < i ==> lines[k].index == Some(start + k)
        invariant err == old(err)
      {
        if estIdx >= end {
          extra := extra + 1;
          continue;
        }
        var parsed := lines[i].index;
        if parsed.None? {
          err := true;
          return Some(Malformatted(estIdx));
        }
        if parsed.value > estIdx {
          err := true;
          return Some(Missing(estIdx, parsed.value));
        } else if parsed.value < estIdx {
          extra := extra + 1;
          if parsed.value >= start && parsed.value < end {
            err := true;
            return Some(Duplicate(parsed.value));
          }
        }
        estIdx := estIdx + 1;
      }
      if extra > 0 {
        err := true;
        return Some(Extra(extra));
      }
      end := estIdx;
      e := None;
    }
  }

  /** What full verification accepts. */
  ghost predicate Verified(f: Spec.File) {
    && f.start < f.end && 0 < |f.lines| <= f.end - f.start
    && forall i :: 0 <= i < |f.lines| ==> f.lines[i].index == Some(f.start + i)
  }

  lemma SizeIsPositive(lines: seq<Spec.Line>)
    requires forall i :: 0 <= i < |lines| ==> lines[i].bytes > 0
    ensures Spec.Size(lines) > 0 <==> lines != []
  {
  }

  class Merger {
    const maxLogSize: nat
    /** The files closed so far. */
    var closed: seq<Spec.File>

    constructor (maxLogSize: nat)
      ensures this.maxLogSize == maxLogSize && closed == []
    {
      this.maxLogSize := maxLogSize;
      closed := [];
    }

    /** What dropping a log file leaves on disk. */
    method Close(file: LogFile)
      modifies this
      ensures closed == old(closed) + [file.View()]
    {
      closed := closed + [Spec.File(file.start, file.end, file.lines, file.finalized)];
    }

    /** Consumes the lines of one file; returns the file that is active afterwards. */
    method Merge(consumed: Spec.File, writer: LogFile) returns (active: LogFile)
      requires writer.Valid()
      modifies this, writer
      ensures active.Valid() && (active == writer || fresh(active))
      ensures Spec.State(closed, active.View())
           == Spec.MergeFrom(maxLogSize, Spec.State(old(closed), old(writer.View())), consumed, 0)
    {
      active := writer;
      var k, milestoneIndex := 0, consumed.start;
      ghost var goal := Spec.MergeFrom(maxLogSize, Spec.State(closed, writer.View()), consumed, 0);
      while k < |consumed.lines|
        invariant k <= |consumed.lines| && milestoneIndex == consumed.start + k
        invariant active.Valid() && (active == writer || fresh(active))
        invariant Spec.MergeFrom(maxLogSize, Spec.State(closed, active.View()), consumed, k) == goal
      {
        var line := consumed.lines[k];
        if active.len + line.bytes < maxLogSize {
          AppendNext(active, milestoneIndex, line);
        } else if k > 0 {
          active := CreateActive(active, milestoneIndex, line);
        } else {
          active := GoOnWith(active, consumed);
          return;
        }
        k, milestoneIndex := k + 1, milestoneIndex + 1;
      }
    }

    /** Appends a line that continues the active file; others it has already, and they are skipped. */
    method AppendNext(active: LogFile, index: nat, line: Spec.Line)
      requires active.Valid()
      modifies active
      ensures active.Valid()
      ensures active.View() == if index == old(active.end) then Spec.Append(old(active.View()), line) else old(active.View())
    {
      if index == active.end {
        active.AppendLine(line);
      }
    }

    /** Finalizes the full file and begins a new one with the line that did not fit. */
    method CreateActive(full: LogFile, index: nat, line: Spec.Line) returns (active: LogFile)
      modifies this, full
      ensures active.Valid() && fresh(active)
      ensures active.View() == Spec.NewFile(index, line) && closed == old(closed) + [old(full.View()).(finalized := true)]
    {
      full.finalized := true;
      Close(full);
      active := new LogFile(Spec.File(index, index, [], false));
      active.AppendLine(line);
      assert [] + [line] == [line];
    }

    /** Finalizes the full file and goes on writing to the next one. */
    method GoOnWith(full: LogFile, next: Spec.File) returns (active: LogFile)
      modifies this, full
      ensures active.Valid() && fresh(active)
      ensures active.View() == Spec.Opened(next) && closed == old(closed) + [old(full.View()).(finalized := true)]
    {
      full.finalized := true;
      Close(full);
      active := new LogFile(next);
    }

    /** Merges all files; `paths` lists them in ascending order of their start. */
    method Cleanup(paths: seq<Spec.File>)
      requires closed == []
      modifies this
      ensures closed == Spec.Merged(maxLogSize, paths)
    {
      if paths == [] {
        return;
      }
      var writer := new LogFile(paths[0]);
      ghost var goal := Spec.TakeAll(maxLogSize, Spec.State([], Spec.Opened(paths[0])), paths[1..]);
      for i := 1 to |paths|
        invariant fresh(writer) && writer.Valid()
        invariant Spec.TakeAll(maxLogSize, Spec.State(closed, writer.View()), paths[i..]) == goal
      {
        assert paths[i..][1..] == paths[i + 1..] && paths[i..][0] == paths[i];
        if paths[i].start <= writer.end {
          writer := Merge(paths[i], writer);
        } else {
          Close(writer);
          writer := new LogFile(paths[i]);
        }
      }
      Close(writer);
    }
  }
}
