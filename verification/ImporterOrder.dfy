/** In which order the rows of the Importer's milestones are acknowledged. */
module ImporterOrder {
  import opened Types
  import opened ImporterSpec
  import opened ImporterProofs

  /** How often exactly this was acknowledged. */
  ghost function Acks(acks: seq<Ack>, a: Ack): nat {
    if acks == [] then 0 else Acks(acks[..|acks| - 1], a) + One(acks[|acks| - 1] == a)
  }

  lemma AcksSnoc(acks: seq<Ack>, b: Ack, a: Ack)
    ensures Acks(acks + [b], a) == Acks(acks, a) + One(b == a)
  {
    assert (acks + [b])[..|acks|] == acks;
  }

  // ------------------------------------------------------------------------------------------------------------
  // Turns
  // ------------------------------------------------------------------------------------------------------------

  /** The rows of the milestone were acknowledged as often as it was reported imported, and once more as far as it is. */
  ghost predicate Turned(s: State, t: Token, acks: seq<Ack>) {
    var n := Times(s.reports, t.index);
    t.work.FailedDue? ||
    (&& Acks(acks, AckAnalytics(t.index)) == n + One(t.work.Syncing? || t.work.ImportedDue?)
     && Acks(acks, AckSync(t.index)) == n + One(t.work.ImportedDue?))
  }

  ghost predicate Even(s: State, m: nat, acks: seq<Ack>) {
    Acks(acks, AckAnalytics(m)) == Times(s.reports, m) == Acks(acks, AckSync(m))
  }

  ghost predicate AllTurned(s: State, tokens: seq<Token>, acks: seq<Ack>) {
    && (forall k :: 0 <= k < |tokens| ==> Turned(s, tokens[k], acks))
    && (forall m: nat :: m !in s.inProgress ==> Even(s, m, acks))
  }

  ghost predicate Counted(c: Config, sys: System) {
    !c.analyticsOnly && sys.importer.outcome.Running? ==> AllTurned(sys.importer, sys.tokens, sys.acks)
  }

  /** With `n` sync rows of `m` acknowledged so far: more analytics rows of `m` are, and all messages of the line to import
      about `m` that has `n` others before it. */
  ghost predicate Ripe(c: Config, file: seq<Line>, acks: seq<Ack>, m: nat) {
    var n := Acks(acks, AckSync(m));
    && Acks(acks, AckAnalytics(m)) > n
    && exists i :: 0 <= i < |file| && Turn(c, file, i, m, n) && MessagesIn(file[i], acks)
  }

  ghost predicate MessagesIn(line: Line, acks: seq<Ack>) {
    forall id :: id in line.messages ==> AckMessage(line.index, id) in acks
  }

  /** Line `i` is to be imported and about `m`, and has `n` others before it. */
  ghost predicate Turn(c: Config, file: seq<Line>, i: nat, m: nat, n: nat)
    requires i < |file|
  {
    file[i].index == m && !Skips(c, file[i]) && Wants(c, file[..i], m) == n
  }

  /** Every sync row was acknowledged after what belongs to it. */
  ghost predicate SyncRowsLast(c: Config, file: seq<Line>, acks: seq<Ack>) {
    forall p :: 0 <= p < |acks| && acks[p].AckSync? ==> Ripe(c, file, acks[..p], acks[p].index)
  }

  lemma OneMoreAck(c: Config, file: seq<Line>, acks: seq<Ack>, ack: Ack)
    requires SyncRowsLast(c, file, acks)
    requires ack.AckSync? ==> Ripe(c, file, acks, ack.index)
    ensures SyncRowsLast(c, file, acks + [ack])
  {
    var all := acks + [ack];
    forall p | 0 <= p < |all| && all[p].AckSync?
      ensures Ripe(c, file, all[..p], all[p].index)
    {
      assert all[..p] == acks[..p];
      if p == |acks| { assert acks[..p] == acks; }
    }
  }

  lemma {:induction false} LastWants(c: Config, lines: seq<Line>, i: nat, m: nat)
    requires i < |lines| && lines[i].index == m && !Skips(c, lines[i])
    requires forall j :: i < j < |lines| ==> lines[j].index != m
    ensures Wants(c, lines, m) == Wants(c, lines[..i], m) + 1
    decreases |lines|
  {
    var n := |lines| - 1;
    if i < n {
      LastWants(c, lines[..n], i, m);
      assert lines[..n][..i] == lines[..i];
    }
  }

  /** A milestone about to write its sync row has its turn. */
  lemma SyncIsRipe(c: Config, s: State, t: Token, acks: seq<Ack>)
    requires Books(c, s) && TokenSupported(c, s, t, acks) && Turned(s, t, acks)
    requires t.index in s.inProgress && t.work.Syncing?
    ensures Ripe(c, s.file, acks, t.index)
  {
    var m := t.index;
    var i := LineOf(c, s, m);
    var lines := s.file[..s.pos];
    BookOf(c, s, m);
    LastWants(c, lines, i, m);
    assert lines[..i] == s.file[..i];
    assert Supported(c, s.file[i], s.inProgress[m], t.work, acks);
    assert Turn(c, s.file, i, m, Acks(acks, AckSync(m))) && MessagesIn(s.file[i], acks);
  }

  // ------------------------------------------------------------------------------------------------------------
  // Every action
  // ------------------------------------------------------------------------------------------------------------

  lemma NeverSyncs(c: Config, s: State, t: Token, acks: seq<Ack>)
    requires Sized(c, s) && TokenSupported(c, s, t, acks) && t.index in s.inProgress && c.analyticsOnly
    ensures !t.work.Syncing?
  {
    var i := LineOf(c, s, t.index);
    assert Supported(c, s.file[i], s.inProgress[t.index], t.work, acks);
  }

  lemma OtherTurned(s: State, t: Token, acks: seq<Ack>, ack: Ack)
    requires Turned(s, t, acks) && ack.index != t.index
    ensures Turned(s, t, acks + [ack])
  {
    AcksSnoc(acks, ack, AckAnalytics(t.index));
    AcksSnoc(acks, ack, AckSync(t.index));
  }

  lemma AnswerTurns(c: Config, s: State, t: Token, acks: seq<Ack>, ok: bool)
    requires Turned(s, t, acks) && Answers(t.work) && !c.analyticsOnly
    ensures var (now, more) := Answer(c, t.work, t.index, ok); Turned(s, Token(t.index, now), acks + more)
  {
    var (now, more) := Answer(c, t.work, t.index, ok);
    if more == [] {
      assert acks + more == acks;
    } else {
      AcksSnoc(acks, more[0], AckAnalytics(t.index));
      AcksSnoc(acks, more[0], AckSync(t.index));
    }
  }

  lemma RestTurned(s: State, tokens: seq<Token>, k: nat, t: Token, acks: seq<Ack>, more: seq<Ack>)
    requires AllTurned(s, tokens, acks) && OneToken(tokens, s.inProgress.Keys) && k < |tokens| && t.index == tokens[k].index
    requires |more| <= 1 && (more != [] ==> more[0].index == t.index) && Turned(s, t, acks + more)
    ensures AllTurned(s, Without(tokens, k) + [t], acks + more)
  {
    var all := Without(tokens, k) + [t];
    if more == [] { assert acks + more == acks; } else { assert more == [more[0]]; }
    forall i | 0 <= i < |all|
      ensures Turned(s, all[i], acks + more)
    {
      if i < |all| - 1 {
        var j := if i < k then i else i + 1;
        assert all[i] == tokens[j];
        if more != [] { OtherTurned(s, tokens[j], acks, more[0]); }
      }
    }
    forall m: nat | m !in s.inProgress
      ensures Even(s, m, acks + more)
    {
      assert Even(s, m, acks);
      if more != [] {
        AcksSnoc(acks, more[0], AckAnalytics(m));
        AcksSnoc(acks, more[0], AckSync(m));
      }
    }
  }

  /** What is known of token `k`. */
  ghost predicate Known(c: Config, sys: System, k: nat) {
    var s := sys.importer;
    && s.outcome.Running? && k < |sys.tokens| && OneToken(sys.tokens, s.inProgress.Keys)
    && s.pos <= |s.file| && sys.tokens[k].index in s.inProgress && sys.tokens[k].index in s.sizes
    && TokenSupported(c, s, sys.tokens[k], sys.acks)
  }

  lemma TokenIsKnown(c: Config, sys: System, k: nat)
    requires Good(c, sys) && sys.importer.outcome.Running? && k < |sys.tokens|
    ensures Known(c, sys, k) && Books(c, sys.importer)
  {
  }

  lemma AnswerKeepsTurns(c: Config, sys: System, k: nat, ok: bool) returns (u: System)
    requires Known(c, sys, k) && Books(c, sys.importer) && Answers(sys.tokens[k].work)
    requires Counted(c, sys) && SyncRowsLast(c, sys.importer.file, sys.acks)
    ensures Act(c, sys, k, ok) == Some(u) && Counted(c, u) && SyncRowsLast(c, u.importer.file, u.acks)
  {
    var s, t := sys.importer, sys.tokens[k];
    var (now, more) := Answer(c, t.work, t.index, ok);
    ActAnswers(c, sys, k, ok);
    u := sys.(tokens := Without(sys.tokens, k) + [Token(t.index, now)], acks := sys.acks + more);
    if !c.analyticsOnly {
      AnswerTurns(c, s, t, sys.acks, ok);
      RestTurned(s, sys.tokens, k, Token(t.index, now), sys.acks, more);
    } else {
      NeverSyncs(c, s, t, sys.acks);
    }
    if more == [] {
      assert sys.acks + more == sys.acks;
    } else {
      if t.work.Syncing? { SyncIsRipe(c, s, t, sys.acks); }
      OneMoreAck(c, s.file, sys.acks, more[0]);
    }
  }

  lemma MoreKeepsTurns(c: Config, sys: System, k: nat, ok: bool) returns (t: System)
    requires Known(c, sys, k) && Counted(c, sys) && sys.tokens[k].work.MoreDue?
    ensures Act(c, sys, k, ok) == Some(t) && Counted(c, t) && t.acks == sys.acks
  {
    ActMore(c, sys, k, ok);
    var s, m := sys.importer, sys.tokens[k].index;
    var token := Token(m, MoreWork(c, s.inProgress[m]));
    t := System(WithMore(c, s, m), Without(sys.tokens, k) + [token], sys.acks);
    if !c.analyticsOnly {
      assert sys.acks + [] == sys.acks;
      RestTurned(s, sys.tokens, k, token, sys.acks, []);
      SameReports(s, t.importer, t.tokens, sys.acks);
    }
  }

  lemma SameReports(s: State, t: State, tokens: seq<Token>, acks: seq<Ack>)
    requires AllTurned(s, tokens, acks)
    requires forall m: nat :: Times(t.reports, m) == Times(s.reports, m)
    requires forall m: nat :: m in s.inProgress ==> m in t.inProgress
    ensures AllTurned(t, tokens, acks)
  {
    forall k | 0 <= k < |tokens|
      ensures Turned(t, tokens[k], acks)
    {
      assert Turned(s, tokens[k], acks);
    }
    forall m: nat | m !in t.inProgress
      ensures Even(t, m, acks)
    {
      assert Even(s, m, acks);
    }
  }

  /** Skipped lines are not reported imported. */
  lemma {:induction false} ScanReports(c: Config, s: State, m: nat)
    requires s.pos <= |s.file|
    ensures Times(Scan(c, s).reports, m) == Times(s.reports, m)
    decreases |s.file| - s.pos
  {
    if s.pos < |s.file| && Skips(c, s.file[s.pos]) {
      ReportsSnoc(s.reports, Report(s.file[s.pos].index, s.file[s.pos].bytes, true), m);
      ScanReports(c, Skip(s), m);
    }
  }

  lemma NotedTurns(s: State, tokens: seq<Token>, k: nat, acks: seq<Ack>)
    requires AllTurned(s, tokens, acks) && OneToken(tokens, s.inProgress.Keys)
    requires k < |tokens| && tokens[k].work.ImportedDue? && tokens[k].index in s.sizes
    ensures AllTurned(Noted(s, tokens[k].index), Without(tokens, k), acks)
  {
    var m, rest := tokens[k].index, Without(tokens, k);
    var t := Noted(s, m);
    forall x: nat
      ensures Times(t.reports, x) == Times(s.reports, x) + One(x == m)
    {
      ReportsSnoc(s.reports, Report(m, s.sizes[m], false), x);
    }
    forall i | 0 <= i < |rest|
      ensures Turned(t, rest[i], acks)
    {
      assert rest[i] == tokens[if i < k then i else i + 1];
    }
    forall x: nat | x !in t.inProgress
      ensures Even(t, x, acks)
    {
      if x == m { assert Turned(s, tokens[k], acks); } else { assert Even(s, x, acks); }
    }
  }

  lemma StartTurns(s: State, t: State, tokens: seq<Token>, token: Token, acks: seq<Ack>)
    requires AllTurned(s, tokens, acks) && token.index !in s.inProgress && (token.work.Saving? || token.work.Analyzing?)
    requires forall m: nat :: Times(t.reports, m) == Times(s.reports, m)
    requires forall m: nat :: m in s.inProgress ==> m in t.inProgress
    ensures AllTurned(t, tokens + [token], acks)
  {
    SameReports(s, t, tokens, acks);
    assert Even(s, token.index, acks);
    assert Turned(t, token, acks);
    forall i | 0 <= i < |tokens + [token]|
      ensures Turned(t, (tokens + [token])[i], acks)
    {
      assert i < |tokens| ==> Turned(t, tokens[i], acks);
    }
  }

  /** Starting on the next line, or finding none. */
  lemma NextTurns(c: Config, s: State, tokens: seq<Token>, acks: seq<Ack>)
    requires s.pos <= |s.file| && NextIsNew(c, s) && AllTurned(s, tokens, acks)
    ensures HasNext(c, s) ==>
      var line := Next(c, s).1.value; AllTurned(StartNext(c, s), tokens + [Token(line.index, FirstWork(c, line))], acks)
    ensures !HasNext(c, s) ==> AllTurned(StartNext(c, s), tokens, acks)
  {
    NextIsScan(c, s);
    ScanKeepsWork(c, s);
    var t := StartNext(c, s);
    forall m: nat
      ensures Times(Scan(c, s).reports, m) == Times(s.reports, m)
    {
      ScanReports(c, s, m);
    }
    if HasNext(c, s) {
      var line := Next(c, s).1.value;
      StartNextTakes(c, s);
      StartTurns(s, t, tokens, Token(line.index, FirstWork(c, line)), acks);
    } else {
      SameReports(s, t, tokens, acks);
    }
  }

  /** The tokens after a milestone was imported. */
  ghost function NextTokens(c: Config, s: State, rest: seq<Token>): seq<Token>
    requires s.pos <= |s.file|
  {
    if HasNext(c, s) then rest + [Token(Next(c, s).1.value.index, FirstWork(c, Next(c, s).1.value))] else rest
  }

  lemma NextStarts(c: Config, s: State)
    requires s.pos <= |s.file|
    ensures s.started + NextTokens(c, s, []) == StartNext(c, s).started
  {
    ScanKeepsWork(c, s);
    if HasNext(c, s) {
      StartNextTakes(c, s);
    } else {
      NextKeepsStarted(c, s);
    }
  }

  lemma ActImportsNext(c: Config, sys: System, k: nat, ok: bool) returns (t: System)
    requires sys.importer.pos <= |sys.importer.file| && sys.importer.outcome.Running?
    requires k < |sys.tokens| && sys.tokens[k].work.ImportedDue?
    requires sys.tokens[k].index in sys.importer.inProgress && sys.tokens[k].index in sys.importer.sizes
    ensures Act(c, sys, k, ok) == Some(t) && t.acks == sys.acks
    ensures t.importer == AfterImport(c, sys.importer, sys.tokens[k].index)
    ensures t.tokens == NextTokens(c, Noted(sys.importer, sys.tokens[k].index), Without(sys.tokens, k))
  {
    var s := Noted(sys.importer, sys.tokens[k].index);
    var more, rest := NextTokens(c, s, []), Without(sys.tokens, k);
    NextStarts(c, s);
    ActImports(c, sys, k, ok, more);
    assert [] + more == more && rest + [] == rest;
    t := Act(c, sys, k, ok).value;
  }

  lemma ImportedTurns(c: Config, s: State, tokens: seq<Token>, k: nat, acks: seq<Ack>)
    requires AllTurned(s, tokens, acks) && OneToken(tokens, s.inProgress.Keys) && s.pos <= |s.file|
    requires k < |tokens| && tokens[k].work.ImportedDue? && tokens[k].index in s.sizes
    requires NextIsNew(c, Noted(s, tokens[k].index))
    ensures var t := Noted(s, tokens[k].index); AllTurned(StartNext(c, t), NextTokens(c, t, Without(tokens, k)), acks)
  {
    NotedTurns(s, tokens, k, acks);
    NextTurns(c, Noted(s, tokens[k].index), Without(tokens, k), acks);
  }

  lemma ImportedKeepsTurns(c: Config, sys: System, k: nat, ok: bool) returns (t: System)
    requires Known(c, sys, k) && Counted(c, sys) && NextFits(c, sys, k) && sys.tokens[k].work.ImportedDue?
    ensures Act(c, sys, k, ok) == Some(t) && Counted(c, t) && t.acks == sys.acks
  {
    t := ActImportsNext(c, sys, k, ok);
    if !c.analyticsOnly { ImportedTurns(c, sys.importer, sys.tokens, k, sys.acks); }
  }

  lemma ActKeepsTurns(c: Config, sys: System, k: nat, ok: bool) returns (t: System)
    requires Good(c, sys) && Counted(c, sys) && SyncRowsLast(c, sys.importer.file, sys.acks) && NextFits(c, sys, k)
    ensures Act(c, sys, k, ok) == Some(t) && Counted(c, t)
    ensures t.importer.file == sys.importer.file && SyncRowsLast(c, t.importer.file, t.acks)
  {
    if k < |sys.tokens| && sys.importer.outcome.Running? {
      TokenIsKnown(c, sys, k);
      match sys.tokens[k].work
      case MoreDue => t := MoreKeepsTurns(c, sys, k, ok);
      case ImportedDue => t := ImportedKeepsTurns(c, sys, k, ok);
      case FailedDue => ActFails(c, sys, k, ok); t := Act(c, sys, k, ok).value;
      case _ => t := AnswerKeepsTurns(c, sys, k, ok);
      ActKeepsFile(c, sys, k, ok);
    } else {
      t := sys;
    }
  }

  // ------------------------------------------------------------------------------------------------------------
  // Every run
  // ------------------------------------------------------------------------------------------------------------

  lemma StepKeepsTurns(c: Config, sys: System, k: nat, ok: bool) returns (t: System)
    requires Good(c, sys) && Counted(c, sys) && SyncRowsLast(c, sys.importer.file, sys.acks) && Clear(c, sys.importer.file)
    ensures sys.importer.pos <= |sys.importer.file| && Act(c, sys, k, ok) == Some(t) && Good(c, t) && Counted(c, t)
    ensures t.importer.file == sys.importer.file && SyncRowsLast(c, t.importer.file, t.acks)
  {
    t := sys;
    if sys.importer.outcome.Running? {
      ClearFits(c, sys, k);
      ActKeepsGood(c, sys, k, ok);
      t := ActKeepsTurns(c, sys, k, ok);
    }
  }

  /** What every action keeps holds after any run. */
  lemma {:induction false} RunInduction(c: Config, sys: System, steps: seq<(nat, bool)>, p: System -> bool)
    requires p(sys)
    requires forall u :: p(u) ==> u.importer.pos <= |u.importer.file|
    requires forall u, k, ok :: p(u) ==> Act(c, u, k, ok).Some? && p(Act(c, u, k, ok).value)
    ensures Run(c, sys, steps).Some? && p(Run(c, sys, steps).value)
    decreases |steps|
  {
    if steps != [] {
      assert Act(c, sys, steps[0].0, steps[0].1).Some?;
      RunInduction(c, Act(c, sys, steps[0].0, steps[0].1).value, steps[1..], p);
    }
  }

  lemma RunKeepsTurns(c: Config, sys: System, steps: seq<(nat, bool)>)
    requires Good(c, sys) && Counted(c, sys) && SyncRowsLast(c, sys.importer.file, sys.acks) && Clear(c, sys.importer.file)
    ensures var end := Run(c, sys, steps);
            end.Some? && end.value.importer.file == sys.importer.file && SyncRowsLast(c, sys.importer.file, end.value.acks)
  {
    var file := sys.importer.file;
    var p := (u: System) => Good(c, u) && Counted(c, u) && SyncRowsLast(c, file, u.acks) && u.importer.file == file;
    forall u, k, ok | p(u)
      ensures Act(c, u, k, ok).Some? && p(Act(c, u, k, ok).value)
    {
      var t := StepKeepsTurns(c, u, k, ok);
    }
    RunInduction(c, sys, steps, p);
  }

  /** Nothing was reported imported, and every worker has just begun. */
  ghost predicate Starting(s: State) {
    && s.pos <= |s.file|
    && (forall m: nat :: Times(s.reports, m) == 0)
    && forall i :: 0 <= i < |s.started| ==> s.started[i].work.Saving? || s.started[i].work.Analyzing?
  }

  lemma FillOneStarts(c: Config, s: State)
    requires Starting(s)
    ensures Starting(FillOne(c, s))
  {
    if !s.eof {
      NextIsScan(c, s);
      ScanKeepsWork(c, s);
      forall m: nat
        ensures Times(Scan(c, s).reports, m) == 0
      {
        ScanReports(c, s, m);
      }
      if HasNext(c, s) { StartNextTakes(c, s); }
    }
  }

  lemma StartTurnsOver(c: Config, file: seq<Line>)
    ensures Counted(c, Begun(c, file)) && Start(c, file).file == file
  {
    var p := (u: State, k: nat) => Starting(u);
    forall u: State, k: nat | k < c.parallelism && p(u, k)
      ensures u.pos <= |u.file| && p(FillOne(c, u), k + 1)
    {
      FillOneStarts(c, u);
    }
    FillInduction(c, Empty(file), c.parallelism, p);
  }

  /** Main result: in any run of a clear file, when a sync row of a milestone is acknowledged with `n` of them before, more
      than `n` analytics rows of the milestone were acknowledged before, and so were all messages of the line to import
      about it that has `n` others before it. */
  lemma SyncRowComesLast(c: Config, file: seq<Line>, steps: seq<(nat, bool)>, p: nat) returns (i: nat)
    requires c.parallelism > 0 && Clear(c, file)
    requires var end := Run(c, Begun(c, file), steps); end.Some? && p < |end.value.acks| && end.value.acks[p].AckSync?
    ensures var acks := Run(c, Begun(c, file), steps).value.acks;
            var m := acks[p].index;
            && Acks(acks[..p], AckAnalytics(m)) > Acks(acks[..p], AckSync(m))
            && i < |file| && Turn(c, file, i, m, Acks(acks[..p], AckSync(m)))
            && forall id :: id in file[i].messages ==> AckMessage(m, id) in acks[..p]
  {
    StartIsGood(c, file);
    StartTurnsOver(c, file);
    RunKeepsTurns(c, Begun(c, file), steps);
    var acks := Run(c, Begun(c, file), steps).value.acks;
    var m := acks[p].index;
    assert Ripe(c, file, acks[..p], m);
    i :| 0 <= i < |file| && Turn(c, file, i, m, Acks(acks[..p], AckSync(m))) && MessagesIn(file[i], acks[..p]);
  }

  /** There is only one such line. */
  lemma TurnIsUnique(c: Config, file: seq<Line>, i: nat, j: nat, m: nat, n: nat)
    requires i <= j < |file| && Turn(c, file, i, m, n) && Turn(c, file, j, m, n)
    ensures i == j
  {
    if i < j { MoreWanted(c, file, i, j, m); }
  }

  lemma {:induction false} MoreWanted(c: Config, file: seq<Line>, i: nat, j: nat, m: nat)
    requires i < j <= |file| && file[i].index == m && !Skips(c, file[i])
    ensures Wants(c, file[..i], m) < Wants(c, file[..j], m)
    decreases j
  {
    assert file[..j][..j - 1] == file[..j - 1];
    if i < j - 1 { MoreWanted(c, file, i, j - 1, m); }
  }
}
