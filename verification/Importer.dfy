/** The Importer actor. Each handler is proved to do what `ImporterSpec` says. */
module ImporterActor {
  import opened Types
  import opened Ranges
  import Spec = ImporterSpec

  class Importer {
    const config: Spec.Config
    /** The log file; `pos` lines of it have been read. */
    const file: seq<Spec.Line>
    var pos: nat
    var inProgress: map<nat, seq<MessageId>>
    var sizes: map<nat, nat>
    var eof: bool
    var reports: seq<Spec.Report>
    /** The workers begun so far. */
    var started: seq<Spec.Token>
    var outcome: Spec.Outcome

    ghost function View(): Spec.State
      reads this
    {
      Spec.State(file, pos, inProgress, sizes, eof, reports, started, outcome)
    }

    /** Opens the file and starts on the first milestones. */
    constructor (config: Spec.Config, file: seq<Spec.Line>)
      ensures this.config == config && View() == Spec.Start(config, file)
    {
      this.config, this.file := config, file;
      pos, inProgress, sizes, eof, reports, started, outcome := 0, map[], map[], false, [], [], Spec.Running;
      new;
      InitImporting();
      if inProgress == map[] && eof {
        outcome := Spec.Imported;
      }
    }

    method InitImporting()
      requires pos <= |file| && !eof
      modifies this
      ensures View() == Spec.Fill(config, old(View()), config.parallelism)
    {
      ghost var begin := View();
      for i := 0 to config.parallelism
        invariant pos <= |file| && !eof && View() == Spec.Fill(config, begin, i)
      {
        var line := NextMilestoneData();
        if line.None? {
          eof := true;
          FillEnds(config, begin, i + 1, config.parallelism);
          return;
        }
        HandleMilestoneData(line.value);
      }
    }

    /** Once the end of the file is noted nothing more is started. */
    static lemma {:induction false} FillEnds(c: Spec.Config, s: Spec.State, k: nat, n: nat)
      requires s.pos <= |s.file| && k <= n && Spec.Fill(c, s, k).eof
      ensures Spec.Fill(c, s, n) == Spec.Fill(c, s, k)
      decreases n
    {
      if k < n {
        FillEnds(c, s, k, n - 1);
      }
    }

    /** The next line to import; lines that are skipped are reported. */
    method NextMilestoneData() returns (line: Option<Spec.Line>)
      requires pos <= |file|
      modifies this`pos, this`sizes, this`reports
      ensures pos <= |file| && (View(), line) == Spec.Next(config, old(View()))
    {
      while pos < |file|
        invariant pos <= |file|
        invariant Spec.Next(config, View()) == Spec.Next(config, old(View()))
      {
        var data := file[pos];
        pos := pos + 1;
        var completed := IsCompleted(data.index);
        if (config.resume && completed) || !config.importRange.Has(data.index) {
          Imported(data.index, data.bytes, true);
        } else {
          sizes := sizes[data.index := data.bytes];
          return Some(data);
        }
      }
      line := None;
    }

    method IsCompleted(index: nat) returns (completed: bool)
      ensures completed <==> Spec.InRanges(config.completed, index)
    {
      for i := 0 to |config.completed|
        invariant forall k :: 0 <= k < i ==> !config.completed[k].Has(index)
      {
        if config.completed[i].Has(index) {
          return true;
        }
      }
      completed := false;
    }

    method Imported(index: nat, bytes: nat, skipped: bool)
      modifies this`reports
      ensures reports == old(reports) + [Spec.Report(index, bytes, skipped)]
    {
      reports := reports + [Spec.Report(index, bytes, skipped)];
    }

    /** Starts on a milestone, in the mode of the Importer. */
    method HandleMilestoneData(line: Spec.Line)
      modifies this`inProgress, this`started
      ensures View() == Spec.HandleData(config, old(View()), line)
    {
      if config.analyticsOnly {
        started := started + [Spec.Token(line.index, Spec.Analyzing)];
        inProgress := inProgress[line.index := line.messages];
      } else {
        var left := InsertSomeMessages(line.index, line.messages);
        inProgress := inProgress[line.index := left];
      }
    }

    /** Inserts the next messages of a milestone; returns the ones left. */
    method InsertSomeMessages(index: nat, ids: seq<MessageId>) returns (left: seq<MessageId>)
      modifies this`started
      ensures started == old(started) + [Spec.Token(index, Spec.Saving(Spec.Batch(config, ids)))]
      ensures left == Spec.AfterBatch(config, ids)
    {
      var inserted: seq<MessageId> := [];
      left := ids;
      for i := 0 to config.parallelism
        invariant inserted == ids[..Spec.Least(i, |ids|)] && left == ids[Spec.Least(i, |ids|)..]
      {
        if left == [] {
          assert Spec.Least(i, |ids|) == Spec.Least(config.parallelism, |ids|);
          break;
        }
        inserted := inserted + [left[0]];
        left := left[1..];
      }
      started := started + [Spec.Token(index, Spec.Saving(inserted))];
    }

    /** The database stored a milestone. */
    method HandleImported(index: nat)
      requires pos <= |file| && index in inProgress && index in sizes
      modifies this
      ensures Some(View()) == Spec.HandleImported(config, old(View()), index)
    {
      inProgress := inProgress - {index};
      var bytes := sizes[index];
      sizes := sizes - {index};
      Imported(index, bytes, false);
      var line := NextMilestoneData();
      if line.Some? {
        HandleMilestoneData(line.value);
      } else if inProgress == map[] {
        outcome := Spec.Imported;
      }
    }

    /** The messages begun for a milestone are stored. */
    method HandleProcessMore(index: nat)
      requires index in inProgress
      modifies this
      ensures Some(View()) == Spec.HandleProcessMore(config, old(View()), index)
    {
      var ids := inProgress[index];
      if ids != [] {
        var left := InsertSomeMessages(index, ids);
        inProgress := inProgress[index := left];
      } else {
        started := started + [Spec.Token(index, Spec.Analyzing)];
      }
    }

    /** The database failed: the import is given up. */
    method HandleFailure()
      modifies this`outcome
      ensures View() == old(View()).(outcome := Spec.Aborted)
    {
      outcome := Spec.Aborted;
    }
  }
}
