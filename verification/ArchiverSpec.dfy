/** The Archiver as a state machine over values: its log files, and the buffer in front of them. */
module ArchiverSpec {
  import opened Types
  import opened Ranges
  import Heap = SyncerSpec

  /** The upper limit of a file without one: u32::MAX. */
  const MAX_INDEX: nat := 0xFFFF_FFFF

  /** A log file with its lines: from inclusive, to exclusive, and the index at which it has to be finished. */
  datatype LogFile = LogFile(from: nat, to: nat, upper: nat, len: nat, finished: bool, lines: seq<MilestoneData>)

  /** The active files, the files to be taken out of them, the ranges of the finished files, and the finished files. */
  datatype Files = Files(logs: seq<LogFile>, cleanup: seq<nat>, processed: seq<Range>, disk: seq<LogFile>)

  /** `lineLen` is the length of a serialized line. */
  datatype Config = Config(maxLogSize: nat, solidifiers: nat, lineLen: MilestoneData -> nat)

  datatype State = State(files: Files, heap: seq<MilestoneData>, next: nat)

  // ------------------------------------------------------------------------------------------------------------
  // Log files
  // ------------------------------------------------------------------------------------------------------------

  function Create(index: nat, limit: Option<nat>): LogFile {
    LogFile(index, index, if limit.Some? then limit.value else MAX_INDEX, 0, false, [])
  }

  function AppendLine(c: Config, f: LogFile, d: MilestoneData): LogFile {
    f.(to := f.to + 1, len := f.len + c.lineLen(d), lines := f.lines + [d])
  }

  /** The position of the first file that ends at `index` and may grow, or the number of files. */
  function FindOpen(logs: seq<LogFile>, index: nat): (i: nat)
    ensures i <= |logs|
    ensures i < |logs| ==> logs[i].to == index && logs[i].upper > index
    ensures forall k :: 0 <= k < i ==> !(logs[k].to == index && logs[k].upper > index)
  {
    if logs == [] || (logs[0].to == index && logs[0].upper > index) then 0 else 1 + FindOpen(logs[1..], index)
  }

  function FindEnd(logs: seq<LogFile>, index: nat): (i: nat)
    ensures i <= |logs|
    ensures i < |logs| ==> logs[i].to == index
    ensures forall k :: 0 <= k < i ==> logs[k].to != index
  {
    if logs == [] || logs[0].to == index then 0 else 1 + FindEnd(logs[1..], index)
  }

  function FindStart(logs: seq<LogFile>, from: nat): (i: nat)
    ensures i <= |logs|
    ensures i < |logs| ==> logs[i].from == from
    ensures forall k :: 0 <= k < i ==> logs[k].from != from
  {
    if logs == [] || logs[0].from == from then 0 else 1 + FindStart(logs[1..], from)
  }

  function Without<T>(s: seq<T>, i: nat): seq<T>
    requires i < |s|
  {
    s[..i] + s[i + 1..]
  }

  /** Where a new file belongs among files sorted by their start. */
  function Place(logs: seq<LogFile>, from: nat): (i: nat)
    ensures i <= |logs|
    ensures forall k :: 0 <= k < i ==> logs[k].from <= from
    ensures i < |logs| ==> from < logs[i].from
  {
    if logs == [] || from < logs[0].from then 0 else 1 + Place(logs[1..], from)
  }

  function Inserted(logs: seq<LogFile>, f: LogFile): seq<LogFile> {
    logs[..Place(logs, f.from)] + [f] + logs[Place(logs, f.from)..]
  }

  /** Where a range belongs among ranges sorted by descending start. */
  function PlaceRange(rs: seq<Range>, start: nat): (i: nat)
    ensures i <= |rs|
  {
    if rs == [] || rs[0].start < start then 0 else 1 + PlaceRange(rs[1..], start)
  }

  function InsertedRange(rs: seq<Range>, r: Range): seq<Range> {
    rs[..PlaceRange(rs, r.start)] + [r] + rs[PlaceRange(rs, r.start)..]
  }

  predicate InProcessed(rs: seq<Range>, index: nat) {
    exists i :: 0 <= i < |rs| && rs[i].Has(index)
  }

  /** A finished file is known by its range from now on. */
  function PushToProcessed(fs: Files, f: LogFile): Files {
    fs.(processed := InsertedRange(fs.processed, Range(f.from, f.to)), disk := fs.disk + [f])
  }

  /** A file whose right neighbour starts at `bound` must end there; it is finished when it has got there. */
  function Lowered(f: LogFile, bound: nat): LogFile {
    var g := if f.upper > bound then f.(upper := bound) else f;
    if g.upper == g.to then g.(finished := true) else g
  }

  function LoweredAt(logs: seq<LogFile>, i: nat): LogFile
    requires i < |logs|
  {
    if i + 1 < |logs| then Lowered(logs[i], logs[i + 1].from) else logs[i]
  }

  function LowerAll(logs: seq<LogFile>): (r: seq<LogFile>)
    ensures |r| == |logs|
    ensures forall i :: 0 <= i < |logs| ==> r[i] == LoweredAt(logs, i)
  {
    seq(|logs|, i requires 0 <= i < |logs| => LoweredAt(logs, i))
  }

  /** The starts of the files among the first `n` that lowering finishes, from right to left. */
  function NewlyFinished(logs: seq<LogFile>, n: nat): seq<nat>
    requires n <= |logs|
  {
    if n == 0 then []
    else (if LoweredAt(logs, n - 1).finished && !logs[n - 1].finished then [logs[n - 1].from] else []) + NewlyFinished(logs, n - 1)
  }

  // ------------------------------------------------------------------------------------------------------------
  // Writing
  // ------------------------------------------------------------------------------------------------------------

  function CreateAndAppend(c: Config, fs: Files, d: MilestoneData, limit: Option<nat>): Files {
    var f := AppendLine(c, Create(d.index, limit), d);
    if f.upper == f.to then PushToProcessed(fs, f.(finished := true))
    else
      var logs := Inserted(fs.logs, f);
      fs.(logs := LowerAll(logs), cleanup := fs.cleanup + NewlyFinished(logs, |logs|))
  }

  /** Appends to file `i`, or finishes it when the line does not fit. */
  function Extend(c: Config, fs: Files, i: nat, d: MilestoneData): Files
    requires i < |fs.logs|
  {
    var f := fs.logs[i];
    if c.lineLen(d) + f.len < c.maxLogSize then
      var g := AppendLine(c, f, d);
      if g.upper == g.to then fs.(logs := fs.logs[i := g.(finished := true)], cleanup := fs.cleanup + [g.from])
      else fs.(logs := fs.logs[i := g])
    else
      var t := fs.(logs := fs.logs[i := f.(finished := true)], cleanup := fs.cleanup + [f.from]);
      if InProcessed(fs.processed, d.index) then t else CreateAndAppend(c, t, d, Some(f.upper))
  }

  function Write(c: Config, fs: Files, d: MilestoneData, limit: Option<nat>): Files {
    var i := FindOpen(fs.logs, d.index);
    if i < |fs.logs| then Extend(c, fs, i, d)
    else if InProcessed(fs.processed, d.index) then fs
    else CreateAndAppend(c, fs, d, limit)
  }

  /** Takes the finished files out of the active ones. None when one is not found. */
  function CleanUp(fs: Files): Option<Files>
    decreases |fs.cleanup|
  {
    if fs.cleanup == [] then Some(fs)
    else
      var n := |fs.cleanup| - 1;
      var i := FindStart(fs.logs, fs.cleanup[n]);
      if i == |fs.logs| then None
      else CleanUp(PushToProcessed(fs.(cleanup := fs.cleanup[..n], logs := Without(fs.logs, i)), fs.logs[i]))
  }

  /** Milestone data that are written, wherever they came from. */
  function HandleData(c: Config, fs: Files, d: MilestoneData, limit: Option<nat>): Option<Files> {
    CleanUp(Write(c, fs, d, limit))
  }

  function CloseLogFile(fs: Files, index: nat): Files {
    var i := FindEnd(fs.logs, index);
    if i == |fs.logs| then fs
    else PushToProcessed(fs.(logs := Without(fs.logs, i)), fs.logs[i].(finished := true))
  }

  // ------------------------------------------------------------------------------------------------------------
  // Events
  // ------------------------------------------------------------------------------------------------------------

  /** Writes data and sets the next index. */
  function WriteAndMove(c: Config, s: State, d: MilestoneData, limit: Option<nat>, next: nat): Option<State> {
    match HandleData(c, s.files, d, limit)
    case None => None
    case Some(fs) => Some(s.(files := fs, next := next))
  }

  /** Writes the buffered data from `next` on; a hole is jumped only when too many data wait behind it. */
  function Drain(c: Config, s: State, limit: Option<nat>): Option<State>
    decreases |s.heap|
  {
    if s.heap == [] then Some(s)
    else
      var d, t := s.heap[0], s.(heap := s.heap[1..]);
      if d.index < s.next then Drain(c, t, limit)
      else if d.index > s.next && |t.heap| <= c.solidifiers then Some(s)
      else
        var u := if d.index > s.next then t.(files := CloseLogFile(t.files, s.next)) else t;
        match WriteAndMove(c, u, d, limit, d.index + 1)
        case None => None
        case Some(v) => Drain(c, v, limit)
  }

  /** One event. None when a finished file is not found among the active ones. */
  function Step(c: Config, s: State, e: ArchiverEvent): Option<State> {
    match e
    case Close(index) => Some(if index < s.next then s.(files := CloseLogFile(s.files, index)) else s)
    case Data(d, limit) =>
      if !d.createdBy.Syncer? then Drain(c, s.(heap := Heap.Push(s.heap, d)), limit)
      else if d.index < s.next then WriteAndMove(c, s, d, limit, s.next)
      else if d.index == s.next then WriteAndMove(c, s, d, None, s.next + 1)
      else Some(s.(heap := Heap.Push(s.heap, d)))
  }
}
