/** How the Importer uses its parallelism: which line it takes next, in which batches it inserts messages, and that it is busy
    until all is imported. */
module ImporterWork {
  import opened Types
  import opened Ranges
  import opened ImporterSpec
  import opened ImporterProofs
  import opened ImporterOrder

  // ------------------------------------------------------------------------------------------------------------
  // The next line
  // ------------------------------------------------------------------------------------------------------------

  /** The line is to be imported: it is about a milestone in the range asked for, and, when an import is resumed, of none of
      the completed ranges. */
  ghost predicate Wanted(c: Config, line: Line) {
    && c.importRange.start <= line.index < c.importRange.end
    && (c.resume ==> forall r :: r in c.completed ==> !(r.start <= line.index < r.end))
  }

  lemma WantedIff(c: Config, line: Line)
    ensures Wanted(c, line) <==> !Skips(c, line)
  {
    if !InRanges(c.completed, line.index) {
      forall r | r in c.completed
        ensures !(r.start <= line.index < r.end)
      {
        var i :| 0 <= i < |c.completed| && c.completed[i] == r;
        assert !c.completed[i].Has(line.index);
      }
    }
  }

  /** The reports for lines that are passed over. */
  function PassedOver(lines: seq<Line>): seq<Report> {
    seq(|lines|, i requires 0 <= i < |lines| => Report(lines[i].index, lines[i].bytes, true))
  }

  /** `q` is the next line to import, or the end of the file. */
  ghost predicate NextWanted(c: Config, s: State, q: nat) {
    && s.pos <= q <= |s.file|
    && (forall i :: s.pos <= i < q ==> !Wanted(c, s.file[i]))
    && (q < |s.file| ==> Wanted(c, s.file[q]))
  }

  lemma PassedOverCons(line: Line, lines: seq<Line>, reports: seq<Report>)
    ensures reports + PassedOver([line] + lines) == reports + [Report(line.index, line.bytes, true)] + PassedOver(lines)
  {
  }

  lemma {:induction false} ScanPassesOver(c: Config, s: State) returns (q: nat)
    requires s.pos <= |s.file|
    ensures NextWanted(c, s, q)
    ensures Scan(c, s) == s.(pos := q, reports := s.reports + PassedOver(s.file[s.pos..q]))
    decreases |s.file| - s.pos
  {
    if s.pos == |s.file| {
      q := s.pos;
      assert s.reports + PassedOver([]) == s.reports;
    } else {
      var line := s.file[s.pos];
      WantedIff(c, line);
      if Skips(c, line) {
        q := ScanPassesOver(c, Skip(s));
        assert s.file[s.pos..q] == [line] + s.file[s.pos + 1..q];
        PassedOverCons(line, s.file[s.pos + 1..q], s.reports);
      } else {
        q := s.pos;
        assert s.reports + PassedOver([]) == s.reports;
      }
    }
  }

  // ------------------------------------------------------------------------------------------------------------
  // Batches
  // ------------------------------------------------------------------------------------------------------------

  /** `ids` is the next batch of `all` messages, `left` what is not begun yet: as many as the parallelism allows, in order. */
  ghost predicate NextBatch(c: Config, all: seq<MessageId>, ids: seq<MessageId>, left: seq<MessageId>) {
    all == ids + left && |ids| <= c.parallelism && (|ids| == c.parallelism || left == [])
  }

  lemma BatchIsNext(c: Config, all: seq<MessageId>)
    ensures NextBatch(c, all, Batch(c, all), AfterBatch(c, all))
  {
  }

  /** What begins with a line: in Analytics mode its analytics row, else its first batch of messages. */
  ghost predicate BeginsLine(c: Config, line: Line, work: Work, left: seq<MessageId>) {
    if c.analyticsOnly then work == Analyzing && left == line.messages
    else work.Saving? && NextBatch(c, line.messages, work.ids, left)
  }

  /** The next line: everything before it is reported as passed over, and the line is begun. If there is none, the rest of the
      file is reported. */
  lemma NextLineBegins(c: Config, s: State) returns (q: nat, work: Work, left: seq<MessageId>)
    requires s.pos <= |s.file|
    ensures NextWanted(c, s, q)
    ensures var t, passed := StartNext(c, s), s.reports + PassedOver(s.file[s.pos..q]);
            if q < |s.file|
            then BeginsLine(c, s.file[q], work, left)
                 && t == s.(pos := q + 1, reports := passed, sizes := s.sizes[s.file[q].index := s.file[q].bytes],
                            inProgress := s.inProgress[s.file[q].index := left], started := s.started + [Token(s.file[q].index, work)])
            else t == s.(pos := q, reports := passed)
  {
    q := ScanPassesOver(c, s);
    NextIsScan(c, s);
    if q < |s.file| {
      StartNextTakes(c, s);
      work, left := FirstWork(c, s.file[q]), FirstLeft(c, s.file[q]);
      BatchIsNext(c, s.file[q].messages);
    } else {
      work, left := FailedDue, [];
    }
  }

  /** Going on with a milestone: its next batch, and its analytics row only when all messages have been begun. */
  lemma MoreBegins(c: Config, s: State, m: nat) returns (work: Work, left: seq<MessageId>)
    requires m in s.inProgress
    ensures HandleProcessMore(c, s, m) == Some(s.(inProgress := s.inProgress[m := left], started := s.started + [Token(m, work)]))
    ensures if s.inProgress[m] == [] then work == Analyzing && left == []
            else work.Saving? && NextBatch(c, s.inProgress[m], work.ids, left)
  {
    var ids := s.inProgress[m];
    if ids == [] {
      work, left := Analyzing, [];
      assert s.inProgress[m := left] == s.inProgress;
      assert HandleProcessMore(c, s, m).value == s.(started := s.started + [Token(m, Analyzing)]);
    } else {
      BatchIsNext(c, ids);
      work, left := Saving(Batch(c, ids)), AfterBatch(c, ids);
    }
  }

  /** No more messages of a milestone are being inserted at once than the parallelism allows, and in Analytics mode none. */
  ghost predicate InBatches(c: Config, tokens: seq<Token>) {
    forall k :: 0 <= k < |tokens| && tokens[k].work.Saving? ==> !c.analyticsOnly && |tokens[k].work.ids| <= c.parallelism
  }

  /** In Analytics mode nothing but analytics rows is written. */
  ghost predicate AnalyticsAlone(c: Config, tokens: seq<Token>, acks: seq<Ack>) {
    c.analyticsOnly ==>
      && (forall k :: 0 <= k < |tokens| ==> !tokens[k].work.MoreDue? && !tokens[k].work.Syncing?)
      && forall p :: 0 <= p < |acks| ==> acks[p].AckAnalytics?
  }

  ghost predicate Batched(c: Config, sys: System) {
    InBatches(c, sys.tokens) && InBatches(c, sys.importer.started) && AnalyticsAlone(c, sys.tokens, sys.acks)
  }

  ghost predicate JustBegun(s: State, t: State) {
    forall k :: |s.started| <= k < |t.started| ==> t.started[k].work.Saving? || t.started[k].work.Analyzing?
  }

  lemma LaunchedInBatches(c: Config, sys: System, t: State, tokens: seq<Token>)
    requires InBatches(c, tokens) && InBatches(c, t.started) && AnalyticsAlone(c, tokens, sys.acks) && JustBegun(sys.importer, t)
    ensures Batched(c, Launch(sys, t, tokens))
  {
  }

  lemma NextLineInBatches(c: Config, s: State)
    requires s.pos <= |s.file| && InBatches(c, s.started)
    ensures var t := StartNext(c, s); s.started <= t.started && InBatches(c, t.started) && JustBegun(s, t)
  {
    var q, work, left := NextLineBegins(c, s);
  }

  lemma MoreInBatches(c: Config, s: State, m: nat)
    requires m in s.inProgress && InBatches(c, s.started) && !c.analyticsOnly
    ensures var t := HandleProcessMore(c, s, m).value;
            InBatches(c, t.started) && JustBegun(s, t)
  {
    var work, left := MoreBegins(c, s, m);
  }

  lemma ActKeepsBatched(c: Config, sys: System, k: nat, ok: bool)
    requires sys.importer.pos <= |sys.importer.file| && Batched(c, sys)
    ensures Act(c, sys, k, ok).Some? ==> Batched(c, Act(c, sys, k, ok).value)
  {
    if k < |sys.tokens| && sys.importer.outcome.Running? && Act(c, sys, k, ok).Some? {
      var s, m, rest := sys.importer, sys.tokens[k].index, Without(sys.tokens, k);
      assert forall i :: 0 <= i < |rest| ==> rest[i] == sys.tokens[if i < k then i else i + 1];
      match sys.tokens[k].work
      case MoreDue =>
        MoreInBatches(c, s, m);
        LaunchedInBatches(c, sys, HandleProcessMore(c, s, m).value, rest);
      case ImportedDue =>
        ImportedInBatches(c, s, m);
        LaunchedInBatches(c, sys, HandleImported(c, s, m).value, rest);
      case _ =>
    }
  }

  lemma ImportedInBatches(c: Config, s: State, m: nat)
    requires s.pos <= |s.file| && InBatches(c, s.started) && HandleImported(c, s, m).Some?
    ensures var t := HandleImported(c, s, m).value;
            InBatches(c, t.started) && JustBegun(s, t)
  {
    NextLineInBatches(c, Noted(s, m));
  }

  // ------------------------------------------------------------------------------------------------------------
  // Every run
  // ------------------------------------------------------------------------------------------------------------

  lemma {:induction false} FillInBatches(c: Config, s: State, n: nat)
    requires s.pos <= |s.file| && InBatches(c, s.started) && s.started == []
    ensures var t := Fill(c, s, n); InBatches(c, t.started) && JustBegun(s, t)
    decreases n
  {
    if n > 0 {
      FillInBatches(c, s, n - 1);
      var u := Fill(c, s, n - 1);
      if !u.eof { NextLineInBatches(c, u); }
    }
  }

  lemma {:induction false} RunKeepsBatched(c: Config, sys: System, steps: seq<(nat, bool)>)
    requires Batched(c, sys)
    ensures var end := Run(c, sys, steps); end.Some? ==> Batched(c, end.value)
    decreases |steps|
  {
    if steps != [] && sys.importer.pos <= |sys.importer.file| {
      ActKeepsBatched(c, sys, steps[0].0, steps[0].1);
      if Act(c, sys, steps[0].0, steps[0].1).Some? { RunKeepsBatched(c, Act(c, sys, steps[0].0, steps[0].1).value, steps[1..]); }
    }
  }

  /** Main result: in any run of any file, at most as many messages of a milestone are being inserted at once as the
      parallelism allows; and in Analytics mode no message is, and nothing but analytics rows is written. */
  lemma BatchesAreBounded(c: Config, file: seq<Line>, steps: seq<(nat, bool)>)
    ensures var end := Run(c, Begun(c, file), steps);
            end.Some? ==>
              && (forall t :: t in end.value.tokens && t.work.Saving? ==> !c.analyticsOnly && |t.work.ids| <= c.parallelism)
              && (c.analyticsOnly ==> forall a :: a in end.value.acks ==> a.AckAnalytics?)
  {
    FillInBatches(c, Empty(file), c.parallelism);
    RunKeepsBatched(c, Begun(c, file), steps);
  }

  /** While the Importer runs, a milestone is in progress; and as many are as the parallelism allows, unless the whole file
      has been read. */
  ghost predicate Busy(c: Config, s: State) {
    s.outcome.Running? ==> s.inProgress != map[] && (|s.inProgress| == c.parallelism || s.pos == |s.file|)
  }

  lemma FillIsBusy(c: Config, s: State)
    requires Filling(c, s) && s.inProgress == map[] && !s.eof && Clear(c, s.file)
    ensures var t := Fill(c, s, c.parallelism); (|t.inProgress| == c.parallelism || t.eof) && (t.eof ==> t.pos == |t.file|)
  {
    var p := (u: State, k: nat) => Filling(c, u) && |u.inProgress| <= k && (u.eof ==> u.pos == |u.file|) && u.file == s.file
                                   && (|u.inProgress| == k || u.eof);
    forall u: State, k: nat | k < c.parallelism && p(u, k)
      ensures u.pos <= |u.file| && p(FillOne(c, u), k + 1)
    {
      ClearIsNew(c, u);
      FillOneKeeps(c, u);
    }
    FillInduction(c, s, c.parallelism, p);
  }

  lemma StartIsBusy(c: Config, file: seq<Line>)
    requires c.parallelism > 0 && Clear(c, file)
    ensures Busy(c, Start(c, file))
  {
    EmptyIsGood(c, file);
    FillIsBusy(c, Empty(file));
  }

  /** The Importer after an import is as busy as before, or done. */
  lemma AfterImportIsBusy(c: Config, s: State, m: nat)
    requires s.pos <= |s.file| && m in s.inProgress && m in s.sizes && NextIsNew(c, Noted(s, m))
    requires s.outcome.Running? && Busy(c, s)
    ensures Busy(c, AfterImport(c, s, m))
  {
    var t := Noted(s, m);
    KeysShrink(s.inProgress, m);
    NextIsScan(c, t);
    ScanKeepsWork(c, t);
    if HasNext(c, t) {
      StartNextTakes(c, t);
      KeysGrow(t.inProgress, Next(c, t).1.value.index, FirstLeft(c, Next(c, t).1.value));
    }
  }

  lemma ImportedStaysBusy(c: Config, sys: System, k: nat, ok: bool) returns (t: System)
    requires Known(c, sys, k) && Busy(c, sys.importer) && NextFits(c, sys, k) && sys.tokens[k].work.ImportedDue?
    ensures Act(c, sys, k, ok) == Some(t) && Busy(c, t.importer)
  {
    t := ActImportsNext(c, sys, k, ok);
    AfterImportIsBusy(c, sys.importer, sys.tokens[k].index);
  }

  lemma MoreStaysBusy(c: Config, sys: System, k: nat, ok: bool) returns (t: System)
    requires Known(c, sys, k) && Busy(c, sys.importer) && sys.tokens[k].work.MoreDue?
    ensures Act(c, sys, k, ok) == Some(t) && Busy(c, t.importer)
  {
    ActMore(c, sys, k, ok);
    t := Act(c, sys, k, ok).value;
    var s, m := sys.importer, sys.tokens[k].index;
    assert t.importer.inProgress.Keys == s.inProgress.Keys;
    assert |t.importer.inProgress.Keys| == |s.inProgress.Keys|;
    assert m in t.importer.inProgress;
  }

  lemma ActKeepsBusy(c: Config, sys: System, k: nat, ok: bool) returns (t: System)
    requires Good(c, sys) && Busy(c, sys.importer) && NextFits(c, sys, k)
    ensures Act(c, sys, k, ok) == Some(t) && Busy(c, t.importer)
  {
    if k < |sys.tokens| && sys.importer.outcome.Running? {
      TokenIsKnown(c, sys, k);
      match sys.tokens[k].work
      case ImportedDue => t := ImportedStaysBusy(c, sys, k, ok);
      case MoreDue => t := MoreStaysBusy(c, sys, k, ok);
      case FailedDue => ActFails(c, sys, k, ok); t := Act(c, sys, k, ok).value;
      case _ => ActAnswers(c, sys, k, ok); t := Act(c, sys, k, ok).value;
    } else {
      t := sys;
    }
  }

  lemma StepKeepsBusy(c: Config, sys: System, k: nat, ok: bool) returns (t: System)
    requires Good(c, sys) && Busy(c, sys.importer) && Clear(c, sys.importer.file)
    ensures sys.importer.pos <= |sys.importer.file| && Act(c, sys, k, ok) == Some(t) && Good(c, t) && Busy(c, t.importer)
    ensures t.importer.file == sys.importer.file
  {
    t := sys;
    ActKeepsFile(c, sys, k, ok);
    if sys.importer.outcome.Running? {
      ClearFits(c, sys, k);
      ActKeepsGood(c, sys, k, ok);
      t := ActKeepsBusy(c, sys, k, ok);
    }
  }

  lemma RunStaysBusy(c: Config, file: seq<Line>, steps: seq<(nat, bool)>) returns (end: System)
    requires c.parallelism > 0 && Clear(c, file)
    ensures Run(c, Begun(c, file), steps) == Some(end) && Good(c, end) && Busy(c, end.importer) && end.importer.file == file
  {
    StartIsGood(c, file);
    StartIsBusy(c, file);
    RunKeepsGood(c, Begun(c, file), steps);
    var p := (u: System) => Good(c, u) && Busy(c, u.importer) && u.importer.file == file;
    forall u, k, ok | p(u)
      ensures Act(c, u, k, ok).Some? && p(Act(c, u, k, ok).value)
    {
      var t := StepKeepsBusy(c, u, k, ok);
    }
    assert p(Begun(c, file));
    RunInduction(c, Begun(c, file), steps, p);
    end := Run(c, Begun(c, file), steps).value;
  }

  /** When the analytics row of a milestone is being written, all messages of its line are. */
  ghost predicate AnalyticsAfterMessages(c: Config, sys: System) {
    forall t, i :: t in sys.tokens && t.work.Analyzing? && Current(sys.importer, i) && sys.importer.file[i].index == t.index ==>
      MessagesIn(sys.importer.file[i], sys.acks)
  }

  /** Main result: in any run of a clear file, while the Importer runs, as many milestones are in progress as the parallelism
      allows unless the file has been read, and something is going on, so that it never hangs; and the analytics row of a
      milestone is written only after all its messages. */
  lemma NeverHangs(c: Config, file: seq<Line>, steps: seq<(nat, bool)>) returns (end: System)
    requires c.parallelism > 0 && Clear(c, file)
    ensures Run(c, Begun(c, file), steps) == Some(end)
    ensures end.importer.outcome.Running? ==>
              && end.tokens != [] && end.importer.inProgress != map[]
              && (|end.importer.inProgress| == c.parallelism || end.importer.pos == |file|)
              && (!c.analyticsOnly ==> AnalyticsAfterMessages(c, end))
  {
    end := RunStaysBusy(c, file, steps);
    if end.importer.outcome.Running? {
      var m :| m in end.importer.inProgress;
      HasToken(end.tokens, end.importer.inProgress.Keys, m);
      if !c.analyticsOnly { AnalyzingHasAll(c, end); }
    }
  }

  lemma HasToken(tokens: seq<Token>, keys: set<nat>, m: nat)
    requires OneToken(tokens, keys) && m in keys
    ensures tokens != []
  {
  }

  lemma AnalyzingHasAll(c: Config, sys: System)
    requires AllSupported(c, sys.importer, sys.tokens, sys.acks) && !c.analyticsOnly
    ensures AnalyticsAfterMessages(c, sys)
  {
    var s := sys.importer;
    forall t, i | t in sys.tokens && t.work.Analyzing? && Current(s, i) && s.file[i].index == t.index
      ensures MessagesIn(s.file[i], sys.acks)
    {
      var k :| 0 <= k < |sys.tokens| && sys.tokens[k] == t;
      assert TokenSupported(c, s, sys.tokens[k], sys.acks);
      assert Supported(c, s.file[i], s.inProgress[t.index], t.work, sys.acks);
    }
  }
}
