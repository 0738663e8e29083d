/** The Archiver actor. Each handler is proved to do what `ArchiverSpec` says. */
module ArchiverActor {
  import opened Types
  import opened Ranges
  import Heap = SyncerSpec
  import Spec = ArchiverSpec

  class Archiver {
    const config: Spec.Config
    /** The active files, sorted by their start. */
    var logs: seq<Spec.LogFile>
    /** The starts of finished files that are still in `logs`. */
    var cleanup: seq<nat>
    /** The ranges of the finished files, in descending order, and the finished files themselves. */
    var processed: seq<Range>
    var disk: seq<Spec.LogFile>
    /** The min-heap of buffered data, listed in the order in which it is popped. */
    var milestonesData: seq<MilestoneData>
    var next: nat

    ghost function Files(): Spec.Files
      reads this
    {
      Spec.Files(logs, cleanup, processed, disk)
    }

    ghost function View(): Spec.State
      reads this
    {
      Spec.State(Files(), milestonesData, next)
    }

    constructor (config: Spec.Config, frontier: nat)
      ensures this.config == config
      ensures View() == Spec.State(Spec.Files([], [], [], []), [], frontier)
    {
      this.config := config;
      logs, cleanup, processed, disk, milestonesData := [], [], [], [], [];
      next := frontier;
    }

    /** One event of the inbox. */
    method HandleEvent(e: ArchiverEvent)
      requires Spec.Step(config, View(), e).Some?
      modifies this
      ensures View() == Spec.Step(config, old(View()), e).value
    {
      match e
      case Close(index) =>
        if index < next {
          CloseLogFile(index);
        }
      case Data(d, limit) =>
        if d.createdBy != Syncer {
          milestonesData := Heap.Push(milestonesData, d);
          DrainIncoming(limit);
        } else if d.index < next {
          HandleMilestoneData(d, limit);
        } else if d.index == next {
          HandleMilestoneData(d, None);
          next := next + 1;
        } else {
          milestonesData := Heap.Push(milestonesData, d);
        }
    }

    /** Writes the buffered data from `next` on. */
    method DrainIncoming(limit: Option<nat>)
      requires Spec.Drain(config, View(), limit).Some?
      modifies this
      ensures View() == Spec.Drain(config, old(View()), limit).value
    {
      while milestonesData != []
        invariant Spec.Drain(config, View(), limit) == Spec.Drain(config, old(View()), limit)
        decreases |milestonesData|
      {
        var msData := milestonesData[0];
        milestonesData := milestonesData[1..];
        if next == msData.index {
          WriteAndMove(msData, limit);
        } else if msData.index > next {
          if |milestonesData| > config.solidifiers {
            JumpHole(msData, limit);
          } else {
            PutBack(msData);
            break;
          }
        }
      }
    }

    /** Too many data wait behind a hole: closes the file in front of it and goes on behind it. */
    method JumpHole(d: MilestoneData, limit: Option<nat>)
      requires var u := View().(files := Spec.CloseLogFile(Files(), next));
               Spec.WriteAndMove(config, u, d, limit, d.index + 1).Some?
      modifies this`logs, this`cleanup, this`processed, this`disk, this`next
      ensures var u := old(View()).(files := Spec.CloseLogFile(old(Files()), old(next)));
              View() == Spec.WriteAndMove(config, u, d, limit, d.index + 1).value
    {
      CloseLogFile(next);
      WriteAndMove(d, limit);
    }

    method PutBack(d: MilestoneData)
      modifies this`milestonesData
      ensures milestonesData == [d] + old(milestonesData)
    {
      milestonesData := [d] + milestonesData;
    }

    /** Writes new data and moves the frontier behind them. */
    method WriteAndMove(d: MilestoneData, limit: Option<nat>)
      requires Spec.WriteAndMove(config, View(), d, limit, d.index + 1).Some?
      modifies this`logs, this`cleanup, this`processed, this`disk, this`next
      ensures View() == Spec.WriteAndMove(config, old(View()), d, limit, d.index + 1).value
    {
      HandleMilestoneData(d, limit);
      next := d.index + 1;
    }

    static method EndingAt(logs: seq<Spec.LogFile>, index: nat) returns (i: nat)
      ensures i == Spec.FindEnd(logs, index)
    {
      i := 0;
      while i < |logs| && logs[i].to != index
        invariant i <= |logs|
        invariant Spec.FindEnd(logs, index) == i + Spec.FindEnd(logs[i..], index)
      {
        assert logs[i..][1..] == logs[i + 1..];
        i := i + 1;
      }
    }

    static method OpenAt(logs: seq<Spec.LogFile>, index: nat) returns (i: nat)
      ensures i == Spec.FindOpen(logs, index)
    {
      i := 0;
      while i < |logs| && !(logs[i].to == index && logs[i].upper > index)
        invariant i <= |logs|
        invariant Spec.FindOpen(logs, index) == i + Spec.FindOpen(logs[i..], index)
      {
        assert logs[i..][1..] == logs[i + 1..];
        i := i + 1;
      }
    }

    static method StartingAt(logs: seq<Spec.LogFile>, from: nat) returns (i: nat)
      ensures i == Spec.FindStart(logs, from)
    {
      i := 0;
      while i < |logs| && logs[i].from != from
        invariant i <= |logs|
        invariant Spec.FindStart(logs, from) == i + Spec.FindStart(logs[i..], from)
      {
        assert logs[i..][1..] == logs[i + 1..];
        i := i + 1;
      }
    }

    /** Finishes the file that ends at `index`, if there is one. */
    method CloseLogFile(index: nat)
      modifies this`logs, this`processed, this`disk
      ensures Files() == Spec.CloseLogFile(old(Files()), index)
    {
      var i := EndingAt(logs, index);
      if i < |logs| {
        var logFile := logs[i].(finished := true);
        logs := Spec.Without(logs, i);
        PushToProcessed(logFile);
      }
    }

    method PushToProcessed(logFile: Spec.LogFile)
      modifies this`processed, this`disk
      ensures Files() == Spec.PushToProcessed(old(Files()), logFile)
    {
      var r := Range(logFile.from, logFile.to);
      var i := 0;
      while i < |processed| && !(processed[i].start < r.start)
        invariant 0 <= i <= |processed|
        invariant Spec.PlaceRange(processed, r.start) == i + Spec.PlaceRange(processed[i..], r.start)
      {
        assert processed[i..][1..] == processed[i + 1..];
        i := i + 1;
      }
      processed := processed[..i] + [r] + processed[i..];
      disk := disk + [logFile];
    }

    /** Writes one line to the file that waits for it, or to a new one. */
    method HandleMilestoneData(d: MilestoneData, limit: Option<nat>)
      requires Spec.HandleData(config, Files(), d, limit).Some?
      modifies this`logs, this`cleanup, this`processed, this`disk
      ensures Files() == Spec.HandleData(config, old(Files()), d, limit).value
    {
      Write(d, limit);
      RemoveFinished();
    }

    method Write(d: MilestoneData, limit: Option<nat>)
      modifies this`logs, this`cleanup, this`processed, this`disk
      ensures Files() == Spec.Write(config, old(Files()), d, limit)
    {
      var i := OpenAt(logs, d.index);
      if i < |logs| {
        Extend(i, d);
      } else {
        var known := IsProcessed(d.index);
        if !known {
          CreateAndAppend(d, limit);
        }
      }
    }

    method Extend(i: nat, d: MilestoneData)
      requires i < |logs|
      modifies this`logs, this`cleanup, this`processed, this`disk
      ensures Files() == Spec.Extend(config, old(Files()), i, d)
    {
      if config.lineLen(d) + logs[i].len < config.maxLogSize {
        logs := logs[i := Spec.AppendLine(config, logs[i], d)];
        if logs[i].upper == logs[i].to {
          cleanup := cleanup + [logs[i].from];
          logs := logs[i := logs[i].(finished := true)];
        }
      } else {
        var upper := logs[i].upper;
        cleanup := cleanup + [logs[i].from];
        logs := logs[i := logs[i].(finished := true)];
        var known := IsProcessed(d.index);
        if !known {
          CreateAndAppend(d, Some(upper));
        }
      }
    }

    method IsProcessed(index: nat) returns (known: bool)
      ensures known <==> Spec.InProcessed(processed, index)
    {
      known := false;
      for i := 0 to |processed|
        invariant !known && forall k :: 0 <= k < i ==> !processed[k].Has(index)
      {
        if processed[i].Has(index) {
          return true;
        }
      }
    }

    /** Takes the finished files out of the active ones. */
    method RemoveFinished()
      requires Spec.CleanUp(Files()).Some?
      modifies this`logs, this`cleanup, this`processed, this`disk
      ensures Files() == Spec.CleanUp(old(Files())).value
    {
      while cleanup != []
        invariant Spec.CleanUp(Files()).Some? && Spec.CleanUp(Files()) == Spec.CleanUp(old(Files()))
        decreases |cleanup|
      {
        var from := cleanup[|cleanup| - 1];
        var i := StartingAt(logs, from);
        cleanup := cleanup[..|cleanup| - 1];
        var logFile := logs[i];
        logs := Spec.Without(logs, i);
        PushToProcessed(logFile);
      }
    }

    /** Creates a file with one line; its left neighbours must end where their right neighbours start. */
    method CreateAndAppend(d: MilestoneData, limit: Option<nat>)
      modifies this`logs, this`cleanup, this`processed, this`disk
      ensures Files() == Spec.CreateAndAppend(config, old(Files()), d, limit)
    {
      var logFile := Spec.AppendLine(config, Spec.Create(d.index, limit), d);
      if logFile.upper == logFile.to {
        PushToProcessed(logFile.(finished := true));
      } else {
        InsertSorted(logFile);
        var lowered, done := LowerLimits(logs);
        logs := lowered;
        cleanup := cleanup + done;
      }
    }

    method InsertSorted(logFile: Spec.LogFile)
      modifies this`logs
      ensures logs == Spec.Inserted(old(logs), logFile)
    {
      var i := 0;
      while i < |logs| && logs[i].from <= logFile.from
        invariant 0 <= i <= |logs|
        invariant Spec.Place(logs, logFile.from) == i + Spec.Place(logs[i..], logFile.from)
      {
        assert logs[i..][1..] == logs[i + 1..];
        i := i + 1;
      }
      logs := logs[..i] + [logFile] + logs[i..];
    }

    /** From right to left: lowers each limit to the start of the right neighbour and finishes files that are there. */
    static method LowerLimits(was: seq<Spec.LogFile>) returns (logs: seq<Spec.LogFile>, done: seq<nat>)
      ensures logs == Spec.LowerAll(was) && done == Spec.NewlyFinished(was, |was|)
    {
      logs, done := was, [];
      if was == [] {
        return;
      }
      var i: nat := |was| - 1;
      assert done + Spec.NewlyFinished(was, i) == Spec.NewlyFinished(was, |was|);
      while i > 0
        invariant i < |was|
        invariant LoweredFrom(was, i, logs)
        invariant done + Spec.NewlyFinished(was, i) == Spec.NewlyFinished(was, |was|)
      {
        FinishStep(was, i, done);
        assert logs[i - 1] == was[i - 1] && logs[i].from == was[i].from;
        var l, completed := LowerLimit(logs[i - 1], logs[i].from);
        if completed {
          done := done + [l.from];
        }
        i := i - 1;
        logs := logs[i := l];
      }
      AllLowered(was, logs);
      assert done + [] == done;
    }

    static lemma AllLowered(was: seq<Spec.LogFile>, logs: seq<Spec.LogFile>)
      requires LoweredFrom(was, 0, logs)
      ensures logs == Spec.LowerAll(was)
    {
    }

    /** The files from `i` on are lowered, the ones before it are not. */
    static predicate LoweredFrom(was: seq<Spec.LogFile>, i: nat, logs: seq<Spec.LogFile>) {
      && |logs| == |was|
      && forall k :: 0 <= k < |was| ==> logs[k] == if k < i then was[k] else Spec.LoweredAt(was, k)
    }

    static lemma FinishStep(was: seq<Spec.LogFile>, i: nat, done: seq<nat>)
      requires 0 < i < |was|
      ensures done + Spec.NewlyFinished(was, i)
           == (if Spec.LoweredAt(was, i - 1).finished && !was[i - 1].finished then done + [was[i - 1].from] else done)
              + Spec.NewlyFinished(was, i - 1)
    {
    }

    static method LowerLimit(logFile: Spec.LogFile, bound: nat) returns (l: Spec.LogFile, completed: bool)
      ensures l == Spec.Lowered(logFile, bound) && (completed <==> l.finished && !logFile.finished)
    {
      l, completed := logFile, false;
      if l.upper > bound {
        l := l.(upper := bound);
      }
      if l.upper == l.to && !l.finished {
        l := l.(finished := true);
        completed := true;
      }
    }
  }
}
