/** The Importer as a state machine over values, with the database workers it waits for. */
module ImporterSpec {
  import opened Types
  import opened Ranges

  /** A line of the log file: a milestone's messages, and the length of the line. */
  datatype Line = Line(index: nat, messages: seq<MessageId>, bytes: nat)

  datatype Config = Config(parallelism: nat, resume: bool, importRange: Range, completed: seq<Range>, analyticsOnly: bool)

  /** Progress reported to the broker. */
  datatype Report = Report(index: nat, bytes: nat, skipped: bool)

  /** What a milestone in progress waits for: messages being inserted, the importer to go on, the analytics row, the sync
      row, or the importer to take note that it is imported or that the database failed. */
  datatype Work = Saving(ids: seq<MessageId>) | MoreDue | Analyzing | Syncing | ImportedDue | FailedDue

  datatype Token = Token(index: nat, work: Work)

  datatype Outcome = Running | Imported | Aborted

  /** The messages of a milestone that are not inserted yet are `inProgress`; `started` are the workers begun. */
  datatype State = State(
    file: seq<Line>,
    pos: nat,
    inProgress: map<nat, seq<MessageId>>,
    sizes: map<nat, nat>,
    eof: bool,
    reports: seq<Report>,
    started: seq<Token>,
    outcome: Outcome)

  predicate InRanges(rs: seq<Range>, x: nat) {
    exists i :: 0 <= i < |rs| && rs[i].Has(x)
  }

  predicate Skips(c: Config, line: Line) {
    (c.resume && InRanges(c.completed, line.index)) || !c.importRange.Has(line.index)
  }

  /** Reads on to the next line to import; skipped lines are reported. */
  function Next(c: Config, s: State): (r: (State, Option<Line>))
    requires s.pos <= |s.file|
    ensures s.pos <= r.0.pos <= |s.file| && r.0.file == s.file
    decreases |s.file| - s.pos
  {
    if s.pos == |s.file| then (s, None)
    else
      var line := s.file[s.pos];
      var t := s.(pos := s.pos + 1);
      if Skips(c, line) then Next(c, t.(reports := s.reports + [Report(line.index, line.bytes, true)]))
      else (t.(sizes := s.sizes[line.index := line.bytes]), Some(line))
  }

  function Least(a: nat, b: nat): nat {
    if a <= b then a else b
  }

  function Batch(c: Config, ids: seq<MessageId>): seq<MessageId> {
    ids[..Least(c.parallelism, |ids|)]
  }

  function AfterBatch(c: Config, ids: seq<MessageId>): seq<MessageId> {
    ids[Least(c.parallelism, |ids|)..]
  }

  function Begin(s: State, index: nat, work: Work): State {
    s.(started := s.started + [Token(index, work)])
  }

  /** Starts on a milestone: with its first messages, or in Analytics mode with its analytics row only. */
  function HandleData(c: Config, s: State, line: Line): State {
    if c.analyticsOnly
    then Begin(s, line.index, Analyzing).(inProgress := s.inProgress[line.index := line.messages])
    else Begin(s, line.index, Saving(Batch(c, line.messages))).(inProgress := s.inProgress[line.index := AfterBatch(c, line.messages)])
  }

  /** Reads on and starts on the line found, if there is one. */
  function StartNext(c: Config, s: State): (t: State)
    requires s.pos <= |s.file|
    ensures t.pos <= |t.file| && t.file == s.file
  {
    var (t, line) := Next(c, s);
    if line.None? then t else HandleData(c, t, line.value)
  }

  /** There is another line to import. */
  predicate HasNext(c: Config, s: State)
    requires s.pos <= |s.file|
  {
    Next(c, s).1.Some?
  }

  /** Starts on one more milestone, or notes the end of the file. */
  function FillOne(c: Config, s: State): (t: State)
    requires s.pos <= |s.file|
    ensures t.pos <= |t.file| && t.file == s.file
  {
    if s.eof then s else if HasNext(c, s) then StartNext(c, s) else StartNext(c, s).(eof := true)
  }

  /** Starts on up to `n` milestones. */
  function Fill(c: Config, s: State, n: nat): (t: State)
    requires s.pos <= |s.file|
    ensures t.pos <= |t.file| && t.file == s.file
    decreases n
  {
    if n == 0 then s else FillOne(c, Fill(c, s, n - 1))
  }

  /** Before the first event: nothing to do when everything was skipped. */
  function Start(c: Config, file: seq<Line>): State {
    var s := Fill(c, State(file, 0, map[], map[], false, [], [], Running), c.parallelism);
    if s.inProgress == map[] && s.eof then s.(outcome := Imported) else s
  }

  /** A milestone is imported: it is reported, and the next one is started. None when it is not in progress. */
  function HandleImported(c: Config, s: State, index: nat): Option<State>
    requires s.pos <= |s.file|
  {
    if index !in s.inProgress || index !in s.sizes then None
    else
      var t := s.(inProgress := s.inProgress - {index}, sizes := s.sizes - {index},
                  reports := s.reports + [Report(index, s.sizes[index], false)]);
      var u := StartNext(c, t);
      if !HasNext(c, t) && u.inProgress == map[] then Some(u.(outcome := Imported)) else Some(u)
  }

  /** Goes on with the next messages of a milestone, or with its analytics and sync rows when there are none left. */
  function HandleProcessMore(c: Config, s: State, index: nat): Option<State> {
    if index !in s.inProgress then None
    else
      var ids := s.inProgress[index];
      if ids != [] then Some(Begin(s, index, Saving(Batch(c, ids))).(inProgress := s.inProgress[index := AfterBatch(c, ids)]))
      else Some(Begin(s, index, Analyzing))
  }

  // ------------------------------------------------------------------------------------------------------------
  // The database
  // ------------------------------------------------------------------------------------------------------------

  datatype Ack = AckMessage(index: nat, id: MessageId) | AckAnalytics(index: nat) | AckSync(index: nat)

  /** The Importer, its workers and events in flight, and what the database acknowledged, in order. */
  datatype System = System(importer: State, tokens: seq<Token>, acks: seq<Ack>)

  function Without<T>(s: seq<T>, k: nat): seq<T>
    requires k < |s|
  {
    s[..k] + s[k + 1..]
  }

  /** The workers begun since are in flight as well. */
  function Launch(sys: System, t: State, tokens: seq<Token>): System {
    var before := |sys.importer.started|;
    sys.(importer := t, tokens := tokens + if before <= |t.started| then t.started[before..] else [])
  }

  /** Something happens to token `k`: the database acknowledges or fails what it waits for, or the Importer takes note.
      None when the Importer does not find the milestone. */
  function Act(c: Config, sys: System, k: nat, ok: bool): Option<System>
    requires sys.importer.pos <= |sys.importer.file|
  {
    if k >= |sys.tokens| || !sys.importer.outcome.Running? then Some(sys)
    else
      var m, rest := sys.tokens[k].index, Without(sys.tokens, k);
      match sys.tokens[k].work
      case Saving(ids) =>
        if !ok then Some(sys.(tokens := rest + [Token(m, FailedDue)]))
        else if ids == [] then Some(sys.(tokens := rest + [Token(m, MoreDue)]))
        else Some(sys.(tokens := rest + [Token(m, Saving(ids[1..]))], acks := sys.acks + [AckMessage(m, ids[0])]))
      case Analyzing =>
        if !ok then Some(sys.(tokens := rest + [Token(m, FailedDue)]))
        else Some(sys.(tokens := rest + [Token(m, if c.analyticsOnly then ImportedDue else Syncing)], acks := sys.acks + [AckAnalytics(m)]))
      case Syncing =>
        if !ok then Some(sys.(tokens := rest + [Token(m, FailedDue)]))
        else Some(sys.(tokens := rest + [Token(m, ImportedDue)], acks := sys.acks + [AckSync(m)]))
      case MoreDue =>
        (match HandleProcessMore(c, sys.importer, m)
         case None => None
         case Some(t) => Some(Launch(sys, t, rest)))
      case ImportedDue =>
        (match HandleImported(c, sys.importer, m)
         case None => None
         case Some(t) => Some(Launch(sys, t, rest)))
      case FailedDue => Some(sys.(importer := sys.importer.(outcome := Aborted), tokens := rest))
  }
}
