/** Exactly for which log files the Importer accounts for every line in every run. */
module ImporterRepeats {
  import opened Types
  import opened Ranges
  import opened ImporterSpec
  import opened ImporterProofs

  /** The run finds every milestone, and every line read is reported or in progress. */
  ghost predicate Accounts(c: Config, file: seq<Line>, steps: seq<(nat, bool)>) {
    var end := Run(c, Begun(c, file), steps);
    end.Some? && Missing(end.value.importer) == 0
  }

  /** How many of the lines read are neither reported nor in progress. */
  ghost function Missing(s: State): int {
    s.pos - |s.reports| - |s.inProgress|
  }

  lemma {:induction false} ScanLosesNothing(c: Config, s: State)
    requires s.pos <= |s.file|
    ensures Missing(Scan(c, s)) == Missing(s)
    decreases |s.file| - s.pos
  {
    if s.pos < |s.file| && Skips(c, s.file[s.pos]) {
      ScanLosesNothing(c, Skip(s));
    }
  }

  /** Starting on a line loses one exactly when its milestone is in progress. */
  lemma StartNextLoses(c: Config, s: State)
    requires s.pos <= |s.file|
    ensures Missing(StartNext(c, s)) == Missing(s) + One(!NextIsNew(c, s))
  {
    ScanLosesNothing(c, s);
    NextIsScan(c, s);
    ScanKeepsWork(c, s);
    if HasNext(c, s) {
      StartNextTakes(c, s);
      var line := Next(c, s).1.value;
      if line.index in s.inProgress {
        KeysStay(s.inProgress, line.index, FirstLeft(c, line));
      } else {
        KeysGrow(s.inProgress, line.index, FirstLeft(c, line));
      }
    }
  }

  lemma KeysStay(left: map<nat, seq<MessageId>>, m: nat, ids: seq<MessageId>)
    requires m in left
    ensures |left[m := ids]| == |left|
  {
    assert left[m := ids].Keys == left.Keys;
    assert |left[m := ids].Keys| == |left.Keys|;
  }

  // ------------------------------------------------------------------------------------------------------------
  // Towards a repetition
  // ------------------------------------------------------------------------------------------------------------

  /** Lines `i` and `j` are both to be imported and about the same milestone. */
  ghost predicate Pair(c: Config, file: seq<Line>, i: nat, j: nat) {
    i < j < |file| && !Skips(c, file[i]) && !Skips(c, file[j]) && file[i].index == file[j].index
  }

  /** Line `j` was not read yet; if line `i` was read, it is in progress. */
  ghost predicate Heads(s: State, i: nat, j: nat)
    requires i < j < |s.file|
  {
    s.pos <= j && (i < s.pos ==> s.file[i].index in s.inProgress)
  }

  /** Line `j` bounds how far the Importer scans, and it does not scan past line `i`. */
  lemma ScanStops(c: Config, s: State, i: nat, j: nat)
    requires s.pos <= j < |s.file| && i < j && !Skips(c, s.file[i]) && !Skips(c, s.file[j])
    ensures var u := Scan(c, s); u.file == s.file && u.pos <= j && (i < u.pos ==> i < s.pos) && u.inProgress == s.inProgress
    ensures s.pos <= Scan(c, s).pos
  {
    ScanKeepsWork(c, s);
  }

  lemma TakeKeepsHeads(u: State, line: Line, left: seq<MessageId>, i: nat, j: nat)
    requires i < j < |u.file| && Heads(u, i, j) && u.file[i].index == u.file[j].index
    requires u.pos < |u.file| && line == u.file[u.pos] && line.index !in u.inProgress
    ensures Heads(Take(u, left), i, j)
  {
  }

  /** The next line to start on: the repetition, which is lost, or one before it. */
  lemma StartsOrLoses(c: Config, s: State, i: nat, j: nat)
    requires s.pos <= |s.file| && Pair(c, s.file, i, j) && Heads(s, i, j)
    ensures HasNext(c, s)
    ensures NextIsNew(c, s) ==> Heads(StartNext(c, s), i, j) && s.pos < StartNext(c, s).pos
  {
    ScanStops(c, s, i, j);
    NextIsThere(c, s);
    StartNextTakes(c, s);
    var u, line := Scan(c, s), Next(c, s).1.value;
    if NextIsNew(c, s) { TakeKeepsHeads(u, line, FirstLeft(c, line), i, j); }
  }

  lemma NextIsThere(c: Config, s: State)
    requires s.pos <= |s.file| && Scan(c, s).pos < |s.file|
    ensures HasNext(c, s)
  {
    NextIsScan(c, s);
    ScanKeepsWork(c, s);
  }

  // ------------------------------------------------------------------------------------------------------------
  // Up to the first workers
  // ------------------------------------------------------------------------------------------------------------

  ghost predicate NoFailure(tokens: seq<Token>) {
    forall k :: 0 <= k < |tokens| ==> !tokens[k].work.FailedDue?
  }

  /** `n` milestones have been started on. */
  ghost predicate Filled(c: Config, file: seq<Line>, s: State, n: nat, i: nat, j: nat)
    requires i < j < |file|
  {
    Filling(c, s) && s.file == file && !s.eof && |s.inProgress| == n && NoFailure(s.started) && Heads(s, i, j)
  }

  lemma FillOneLoses(c: Config, s: State)
    requires s.pos <= |s.file|
    ensures Missing(FillOne(c, s)) >= Missing(s)
  {
    StartNextLoses(c, s);
  }

  lemma StartedFills(c: Config, s: State)
    requires Filling(c, s) && !s.eof && HasNext(c, s) && NextIsNew(c, s) && |s.inProgress| < c.parallelism && NoFailure(s.started)
    ensures var t := StartNext(c, s);
            Filling(c, t) && !t.eof && |t.inProgress| == |s.inProgress| + 1 && NoFailure(t.started)
  {
    FillOneKeeps(c, s);
    StartedIsHealthy(c, s);
  }

  lemma StartedIsHealthy(c: Config, s: State)
    requires s.pos <= |s.file| && HasNext(c, s) && NoFailure(s.started)
    ensures NoFailure(StartNext(c, s).started) && StartNext(c, s).eof == s.eof
  {
    StartNextTakes(c, s);
    ScanKeepsWork(c, s);
  }

  lemma FillOneFills(c: Config, file: seq<Line>, s: State, n: nat, i: nat, j: nat)
    requires n < c.parallelism && Pair(c, file, i, j) && Filled(c, file, s, n, i, j)
    ensures Missing(FillOne(c, s)) > 0 || Filled(c, file, FillOne(c, s), n + 1, i, j)
  {
    StartsOrLoses(c, s, i, j);
    StartNextLoses(c, s);
    NothingMissing(c, System(s, s.started, []));
    if NextIsNew(c, s) { StartedFills(c, s); }
  }

  lemma NothingMissing(c: Config, sys: System)
    requires Good(c, sys)
    ensures Missing(sys.importer) == 0
  {
  }

  lemma FillsOrLoses(c: Config, file: seq<Line>, i: nat, j: nat)
    requires c.parallelism > 0 && Pair(c, file, i, j)
    ensures var t := Fill(c, Empty(file), c.parallelism); Missing(t) > 0 || Filled(c, file, t, c.parallelism, i, j)
  {
    var p := (u: State, k: nat) => u.pos <= |u.file| && (Missing(u) > 0 || Filled(c, file, u, k, i, j));
    EmptyIsGood(c, file);
    forall u: State, k: nat | k < c.parallelism && p(u, k)
      ensures u.pos <= |u.file| && p(FillOne(c, u), k + 1)
    {
      FillOneLoses(c, u);
      if Missing(u) <= 0 { FillOneFills(c, file, u, k, i, j); }
    }
    FillInduction(c, Empty(file), c.parallelism, p);
  }

  // ------------------------------------------------------------------------------------------------------------
  // Importing one milestone
  // ------------------------------------------------------------------------------------------------------------

  lemma {:induction false} RunConcat(c: Config, sys: System, a: seq<(nat, bool)>, b: seq<(nat, bool)>)
    requires Run(c, sys, a).Some?
    ensures Run(c, sys, a + b) == Run(c, Run(c, sys, a).value, b)
    decreases |a|
  {
    if a == [] {
      assert a + b == b;
    } else {
      assert (a + b)[1..] == a[1..] + b;
      RunConcat(c, Act(c, sys, a[0].0, a[0].1).value, a[1..], b);
    }
  }

  /** How much is left to do for a milestone. */
  function Cost(work: Work, left: nat): nat {
    match work
    case Saving(ids) => 4 * left + 2 * |ids| + 6
    case MoreDue => 4 * left + 5
    case Analyzing => 3
    case Syncing => 2
    case _ => 1
  }

  /** The Importer runs, and no worker failed. */
  ghost predicate Healthy(c: Config, sys: System) {
    Good(c, sys) && sys.importer.outcome.Running? && NoFailure(sys.tokens)
  }

  /** From one system to another no line was read and no import noted. */
  ghost predicate Within(sys: System, t: System) {
    && t.importer.file == sys.importer.file && t.importer.pos == sys.importer.pos
    && t.importer.inProgress.Keys == sys.importer.inProgress.Keys
    && |t.importer.inProgress| == |sys.importer.inProgress|
  }

  lemma OthersHealthy(tokens: seq<Token>, k: nat, t: Token)
    requires NoFailure(tokens) && k < |tokens| && !t.work.FailedDue?
    ensures NoFailure(Without(tokens, k) + [t])
  {
    var rest := Without(tokens, k);
    assert forall q :: 0 <= q < |rest| ==> rest[q] == tokens[if q < k then q else q + 1];
  }

  /** What the worker of token `k` does next, when all goes well. */
  ghost function Progressed(c: Config, sys: System, k: nat): System
    requires k < |sys.tokens| && sys.tokens[k].index in sys.importer.inProgress
  {
    var s, m, work := sys.importer, sys.tokens[k].index, sys.tokens[k].work;
    if work.MoreDue?
    then System(WithMore(c, s, m), Without(sys.tokens, k) + [Token(m, MoreWork(c, s.inProgress[m]))], sys.acks)
    else sys.(tokens := Without(sys.tokens, k) + [Token(m, Answer(c, work, m, true).0)],
              acks := sys.acks + Answer(c, work, m, true).1)
  }

  lemma WorkerSteps(c: Config, sys: System, k: nat)
    requires Healthy(c, sys) && k < |sys.tokens| && !sys.tokens[k].work.ImportedDue?
    requires sys.tokens[k].index in sys.importer.inProgress
    ensures Act(c, sys, k, true) == Some(Progressed(c, sys, k)) && Good(c, Progressed(c, sys, k))
  {
    if sys.tokens[k].work.MoreDue? {
      ActMore(c, sys, k, true);
      MoreKeepsGood(c, sys, k, true);
    } else {
      ActAnswers(c, sys, k, true);
      AnswerKeepsGood(c, sys, k, true);
    }
  }

  /** A step of the worker of a milestone that is not imported yet. */
  lemma ProgressCosts(c: Config, sys: System, k: nat)
    requires k < |sys.tokens| && sys.tokens[k].index in sys.importer.inProgress && c.parallelism > 0
    requires !sys.tokens[k].work.ImportedDue? && NoFailure(sys.tokens) && sys.importer.outcome.Running?
    ensures var t, n, m := Progressed(c, sys, k), |sys.tokens| - 1, sys.tokens[k].index;
            && Within(sys, t) && |t.tokens| == n + 1 && t.importer.outcome.Running? && NoFailure(t.tokens)
            && t.tokens[n].index == m && m in t.importer.inProgress
            && Cost(t.tokens[n].work, |t.importer.inProgress[m]|) < Cost(sys.tokens[k].work, |sys.importer.inProgress[m]|)
  {
    var s, m := sys.importer, sys.tokens[k].index;
    KeysStay(s.inProgress, m, AfterBatch(c, s.inProgress[m]));
    OthersHealthy(sys.tokens, k, Progressed(c, sys, k).tokens[|sys.tokens| - 1]);
  }

  lemma RunFirst(c: Config, sys: System, k: nat, t: System, rest: seq<(nat, bool)>)
    requires sys.importer.pos <= |sys.importer.file| && Act(c, sys, k, true) == Some(t)
    ensures Run(c, sys, [(k, true)] + rest) == Run(c, t, rest)
  {
    assert ([(k, true)] + rest)[1..] == rest;
  }

  ghost function CostOf(sys: System, k: nat): nat {
    if k < |sys.tokens| && sys.tokens[k].index in sys.importer.inProgress
    then Cost(sys.tokens[k].work, |sys.importer.inProgress[sys.tokens[k].index]|)
    else 0
  }

  /** From `sys` on the Importer has stayed where it is, and worker `n` is that of milestone `m`. */
  ghost predicate AtWork(c: Config, sys: System, m: nat, t: System, n: nat) {
    Healthy(c, t) && Within(sys, t) && n < |t.tokens| && t.tokens[n].index == m && m in t.importer.inProgress
  }

  lemma StaysAtWork(c: Config, sys: System, m: nat, u: System, n: nat) returns (t: System, k: nat)
    requires AtWork(c, sys, m, u, n)
    requires !u.tokens[n].work.ImportedDue?
    ensures t == Progressed(c, u, n) && AtWork(c, sys, m, t, k) && CostOf(t, k) < CostOf(u, n)
  {
    t, k := Progressed(c, u, n), |u.tokens| - 1;
    WorkerIsGood(c, u, n);
    ProgressCosts(c, u, n);
  }

  lemma WorkerIsGood(c: Config, sys: System, k: nat)
    requires Healthy(c, sys) && k < |sys.tokens| && !sys.tokens[k].work.ImportedDue?
    requires sys.tokens[k].index in sys.importer.inProgress
    ensures Good(c, Progressed(c, sys, k)) && c.parallelism > 0
  {
    WorkerSteps(c, sys, k);
  }

  ghost function Working(c: Config, sys: System, m: nat): iset<(System, nat)> {
    iset t: System, n: nat | AtWork(c, sys, m, t, n) :: (t, n)
  }

  lemma WorkGoesOn(c: Config, sys: System, m: nat, u: System, n: nat) returns (t: System, k: nat)
    requires (u, n) in Working(c, sys, m) && n < |u.tokens| && !u.tokens[n].work.ImportedDue?
    ensures (t, k) in Working(c, sys, m) && CostOf(t, k) < CostOf(u, n)
    ensures u.tokens[n].index in u.importer.inProgress && t == Progressed(c, u, n)
  {
    t, k := StaysAtWork(c, sys, m, u, n);
  }

  lemma RunProgress(c: Config, sys: System, m: nat, u: System, n: nat, rest: seq<(nat, bool)>)
    requires (u, n) in Working(c, sys, m) && n < |u.tokens| && !u.tokens[n].work.ImportedDue?
    requires u.tokens[n].index in u.importer.inProgress
    ensures Run(c, u, [(n, true)] + rest) == Run(c, Progressed(c, u, n), rest)
  {
    WorkerSteps(c, u, n);
    RunFirst(c, u, n, Progressed(c, u, n), rest);
  }

  /** Acknowledgements alone bring the worker of a milestone to the end, and leave the Importer where it is. */
  lemma {:induction false} WorkerEnds(c: Config, sys: System, m: nat, u: System, n: nat)
    returns (steps: seq<(nat, bool)>, end: System, at: nat)
    requires (u, n) in Working(c, sys, m)
    ensures Run(c, u, steps) == Some(end) && (end, at) in Working(c, sys, m)
    ensures at < |end.tokens| ==> end.tokens[at].work.ImportedDue?
    decreases CostOf(u, n)
  {
    if n >= |u.tokens| || u.tokens[n].work.ImportedDue? {
      steps, end, at := [], u, n;
    } else {
      var t, k := WorkGoesOn(c, sys, m, u, n);
      steps, end, at := WorkerEnds(c, sys, m, t, k);
      RunProgress(c, sys, m, u, n, steps);
      steps := [(n, true)] + steps;
    }
  }

  // ------------------------------------------------------------------------------------------------------------
  // Leading the Importer to the repetition
  // ------------------------------------------------------------------------------------------------------------

  /** All workers are busy in front of the repetition. */
  ghost predicate Leads(c: Config, sys: System, i: nat, j: nat) {
    && Healthy(c, sys) && |sys.importer.inProgress| == c.parallelism >= 2
    && Pair(c, sys.importer.file, i, j) && Heads(sys.importer, i, j)
  }

  /** Another milestone than `m` is in progress, and has its worker. */
  lemma OtherWorker(c: Config, sys: System, m: nat) returns (k: nat)
    requires Healthy(c, sys) && |sys.importer.inProgress| >= 2
    ensures k < |sys.tokens| && sys.tokens[k].index != m && sys.tokens[k].index in sys.importer.inProgress
  {
    var keys := sys.importer.inProgress.Keys;
    assert |keys| >= 2;
    assert keys - {m} != {} by {
      if keys <= {m} { assert |keys| <= |{m}| by { SubsetIsSmaller(keys, {m}); } }
    }
    var x :| x in keys - {m};
    k :| 0 <= k < |sys.tokens| && sys.tokens[k].index == x;
  }

  lemma {:induction false} SubsetIsSmaller(a: set<nat>, b: set<nat>)
    requires a <= b
    ensures |a| <= |b|
    decreases b
  {
    if b != {} {
      var x :| x in b;
      SubsetIsSmaller(a - {x}, b - {x});
    }
  }

  /** The Importer after the import of a milestone, when there is another line to start on. */
  ghost function Imported(c: Config, sys: System, k: nat): System
    requires k < |sys.tokens| && sys.importer.pos <= |sys.importer.file| && sys.tokens[k].index in sys.importer.sizes
    requires HasNext(c, Noted(sys.importer, sys.tokens[k].index))
  {
    var s := Noted(sys.importer, sys.tokens[k].index);
    var line := Next(c, s).1.value;
    System(StartNext(c, s), Without(sys.tokens, k) + [Token(line.index, FirstWork(c, line))], sys.acks)
  }

  lemma ImportActs(c: Config, sys: System, k: nat)
    requires Healthy(c, sys) && k < |sys.tokens| && sys.tokens[k].work.ImportedDue?
    requires sys.tokens[k].index in sys.importer.inProgress && sys.tokens[k].index in sys.importer.sizes
    requires HasNext(c, Noted(sys.importer, sys.tokens[k].index))
    ensures Act(c, sys, k, true) == Some(Imported(c, sys, k))
  {
    var s := Noted(sys.importer, sys.tokens[k].index);
    var line := Next(c, s).1.value;
    StartNextTakes(c, s);
    ScanKeepsWork(c, s);
    ActImports(c, sys, k, true, [Token(line.index, FirstWork(c, line))]);
  }

  lemma NotedKeepsHeads(s: State, m: nat, i: nat, j: nat)
    requires i < j < |s.file| && Heads(s, i, j) && m in s.sizes && m != s.file[i].index
    ensures Heads(Noted(s, m), i, j)
  {
  }

  lemma ImportIsHealthy(c: Config, sys: System, k: nat)
    requires Healthy(c, sys) && k < |sys.tokens| && sys.tokens[k].work.ImportedDue?
    requires sys.tokens[k].index in sys.importer.sizes && HasNext(c, Noted(sys.importer, sys.tokens[k].index))
    requires NextIsNew(c, Noted(sys.importer, sys.tokens[k].index))
    ensures Healthy(c, Imported(c, sys, k)) && |Imported(c, sys, k).importer.inProgress| == |sys.importer.inProgress|
  {
    var s, rest := Noted(sys.importer, sys.tokens[k].index), Without(sys.tokens, k);
    var line := Next(c, s).1.value;
    NotedKeepsGood(c, sys, k);
    NotedKeepsBooks(c, sys.importer, sys.tokens[k].index);
    StartNextKeepsGood(c, s, rest, sys.acks);
    OthersHealthy(sys.tokens, k, Token(line.index, FirstWork(c, line)));
  }

  /** The import of a milestone other than the repeated one: the Importer starts on the next line, or loses it. */
  lemma ImportGoesOn(c: Config, sys: System, k: nat, i: nat, j: nat)
    requires Leads(c, sys, i, j)
    requires k < |sys.tokens| && sys.tokens[k].work.ImportedDue? && sys.tokens[k].index != sys.importer.file[i].index
    ensures Act(c, sys, k, true).Some?
    ensures var t := Act(c, sys, k, true).value;
            Missing(t.importer) > 0 || (Leads(c, t, i, j) && t.importer.file == sys.importer.file && t.importer.pos > sys.importer.pos)
  {
    var s, m := sys.importer, sys.tokens[k].index;
    NotedKeepsGood(c, sys, k);
    NotedKeepsHeads(s, m, i, j);
    StartsOrLoses(c, Noted(s, m), i, j);
    ImportActs(c, sys, k);
    StartNextLoses(c, Noted(s, m));
    NothingMissing(c, System(Noted(s, m), Without(sys.tokens, k), sys.acks));
    if NextIsNew(c, Noted(s, m)) { ImportIsHealthy(c, sys, k); }
  }

  ghost predicate Loses(c: Config, sys: System, steps: seq<(nat, bool)>) {
    var end := Run(c, sys, steps);
    end.Some? && Missing(end.value.importer) > 0
  }

  lemma LosesLater(c: Config, sys: System, first: seq<(nat, bool)>, at: nat, u: System, rest: seq<(nat, bool)>)
    requires Run(c, sys, first).Some? && Run(c, sys, first).value.importer.pos <= |Run(c, sys, first).value.importer.file|
    requires Act(c, Run(c, sys, first).value, at, true) == Some(u) && Loses(c, u, rest)
    ensures Loses(c, sys, first + ([(at, true)] + rest))
  {
    RunFirst(c, Run(c, sys, first).value, at, u, rest);
    RunConcat(c, sys, first, [(at, true)] + rest);
  }

  lemma WithinLeads(c: Config, sys: System, t: System, i: nat, j: nat)
    requires Leads(c, sys, i, j) && Within(sys, t) && Healthy(c, t)
    ensures Leads(c, t, i, j)
  {
    assert forall m :: m in sys.importer.inProgress.Keys ==> m in t.importer.inProgress;
  }

  lemma {:induction false} LeadsToLoss(c: Config, sys: System, i: nat, j: nat) returns (steps: seq<(nat, bool)>)
    requires Leads(c, sys, i, j)
    ensures Loses(c, sys, steps)
    decreases |sys.importer.file| - sys.importer.pos
  {
    var k := OtherWorker(c, sys, sys.importer.file[i].index);
    var first, t, at := WorkerEnds(c, sys, sys.tokens[k].index, sys, k);
    WithinLeads(c, sys, t, i, j);
    ImportGoesOn(c, t, at, i, j);
    var u := Act(c, t, at, true).value;
    var rest: seq<(nat, bool)> := [];
    if Missing(u.importer) <= 0 { rest := LeadsToLoss(c, u, i, j); }
    LosesLater(c, sys, first, at, u, rest);
    steps := first + ([(at, true)] + rest);
  }

  /** A file with a repetition loses a line in some run, if two milestones can be in progress at once. */
  lemma RepetitionIsLost(c: Config, file: seq<Line>) returns (steps: seq<(nat, bool)>)
    requires c.parallelism >= 2 && !Apart(c, file)
    ensures !Accounts(c, file, steps)
  {
    var i, j :| 0 <= i < j < |file| && !Skips(c, file[i]) && !Skips(c, file[j]) && file[i].index == file[j].index;
    FillsOrLoses(c, file, i, j);
    steps := [];
    if Missing(Fill(c, Empty(file), c.parallelism)) <= 0 {
      steps := LeadsToLoss(c, Begun(c, file), i, j);
    }
  }

  /** Main result: every run finds its milestones and accounts for every line, exactly when only one milestone is imported
      at a time or no two lines to import are about the same one. */
  lemma AccountsIffClear(c: Config, file: seq<Line>)
    requires c.parallelism > 0
    ensures (forall steps :: Accounts(c, file, steps)) <==> Clear(c, file)
  {
    if Clear(c, file) {
      forall steps
        ensures Accounts(c, file, steps)
      {
        EveryLineIsAccountedFor(c, file, steps);
      }
    } else {
      var steps := RepetitionIsLost(c, file);
    }
  }

  /** Two lines about the same milestone, and one more. */
  ghost predicate Twice(c: Config, a: Line, b: Line, d: Line) {
    && c.parallelism == 2 && c.analyticsOnly && !Skips(c, a) && !Skips(c, b) && !Skips(c, d)
    && a.index == b.index && d.index == a.index + 1
  }

  /** The second line takes the place of the first; both have their workers. */
  function TakenTwice(a: Line, b: Line, d: Line): System {
    var worker := Token(b.index, Analyzing);
    System(State([a, b, d], 2, map[b.index := b.messages], map[b.index := b.bytes], false, [], [worker, worker], Running),
           [worker, worker], [])
  }

  lemma BeginsTwice(c: Config, a: Line, b: Line, d: Line)
    requires Twice(c, a, b, d)
    ensures Begun(c, [a, b, d]) == TakenTwice(a, b, d)
  {
    var file, worker := [a, b, d], Token(a.index, Analyzing);
    var s := State(file, 1, map[a.index := a.messages], map[a.index := a.bytes], false, [], [worker], Running);
    assert FillOne(c, Empty(file)) == s;
    assert FillOne(c, s) == TakenTwice(a, b, d).importer;
    assert Fill(c, Empty(file), 2) == FillOne(c, Fill(c, Empty(file), 1));
  }

  /** In Analytics mode, with two milestones at a time, the second import that is noted finds nothing in progress. */
  lemma RepeatedMilestoneIsMissed(c: Config, a: Line, b: Line, d: Line)
    requires Twice(c, a, b, d)
    ensures Run(c, Begun(c, [a, b, d]), [(0, true), (1, true), (0, true), (1, true)]) == None
  {
    BeginsTwice(c, a, b, d);
  }
}
