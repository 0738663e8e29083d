/** Every run of the Importer accounts for every line of its log file, unless two lines about the same milestone can be in
    progress at once. */
module ImporterProofs {
  import opened Types
  import opened Ranges
  import opened ImporterSpec

  ghost function One(b: bool): nat {
    if b then 1 else 0
  }

  // ------------------------------------------------------------------------------------------------------------
  // The books
  // ------------------------------------------------------------------------------------------------------------

  /** How many of the lines are to be imported and about milestone `m`. */
  ghost function Wants(c: Config, lines: seq<Line>, m: nat): nat {
    if lines == [] then 0
    else Wants(c, lines[..|lines| - 1], m) + One(lines[|lines| - 1].index == m && !Skips(c, lines[|lines| - 1]))
  }

  /** How often `m` was reported imported. */
  ghost function Times(reports: seq<Report>, m: nat): nat {
    if reports == [] then 0
    else Times(reports[..|reports| - 1], m) + One(reports[|reports| - 1].index == m && !reports[|reports| - 1].skipped)
  }

  ghost function ReportedBytes(reports: seq<Report>): nat {
    if reports == [] then 0 else ReportedBytes(reports[..|reports| - 1]) + reports[|reports| - 1].bytes
  }

  ghost function FileBytes(lines: seq<Line>): nat {
    if lines == [] then 0 else FileBytes(lines[..|lines| - 1]) + lines[|lines| - 1].bytes
  }

  /** The bytes of the last line of each milestone in `keys`. */
  ghost function HeldBytes(lines: seq<Line>, keys: set<nat>): nat
    decreases |lines|
  {
    if lines == [] then 0
    else
      var line := lines[|lines| - 1];
      if line.index in keys then line.bytes + HeldBytes(lines[..|lines| - 1], keys - {line.index})
      else HeldBytes(lines[..|lines| - 1], keys)
  }

  /** Line `i` is the one being imported of its milestone: the last one read. */
  ghost predicate Current(s: State, i: int) {
    && 0 <= i < s.pos <= |s.file| && s.file[i].index in s.inProgress
    && forall j :: i < j < s.pos ==> s.file[j].index != s.file[i].index
  }

  /** Each line to import among those read was reported imported or is in progress. */
  ghost predicate OnceEach(c: Config, s: State)
    requires s.pos <= |s.file|
  {
    forall m: nat :: Times(s.reports, m) + One(m in s.inProgress) == Wants(c, s.file[..s.pos], m)
  }

  /** The bytes of the lines read: reported, or in progress. */
  ghost predicate Weighed(lines: seq<Line>, reports: seq<Report>, keys: set<nat>) {
    ReportedBytes(reports) + HeldBytes(lines, keys) == FileBytes(lines)
  }

  ghost predicate HasLine(c: Config, s: State, m: nat) {
    exists i :: Current(s, i) && s.file[i].index == m && !Skips(c, s.file[i])
  }

  /** Each milestone in progress has its line, and the length of that line is known. */
  ghost predicate Sized(c: Config, s: State) {
    && s.pos <= |s.file|
    && s.sizes.Keys == s.inProgress.Keys
    && (forall m :: m in s.inProgress ==> HasLine(c, s, m))
    && (forall i :: Current(s, i) ==> s.sizes[s.file[i].index] == s.file[i].bytes)
  }

  /** Lines read: reported, skipped or imported, or in progress; and so their bytes. */
  ghost predicate Accounted(c: Config, s: State) {
    && Sized(c, s)
    && s.pos == |s.reports| + |s.inProgress|
    && Weighed(s.file[..s.pos], s.reports, s.inProgress.Keys)
  }

  ghost predicate Books(c: Config, s: State) {
    Accounted(c, s) && OnceEach(c, s)
  }

  lemma ReportsSnoc(reports: seq<Report>, r: Report, m: nat)
    ensures Times(reports + [r], m) == Times(reports, m) + One(r.index == m && !r.skipped)
    ensures ReportedBytes(reports + [r]) == ReportedBytes(reports) + r.bytes
  {
    assert (reports + [r])[..|reports|] == reports;
  }

  lemma LinesSnoc(c: Config, lines: seq<Line>, line: Line, keys: set<nat>, m: nat)
    ensures FileBytes(lines + [line]) == FileBytes(lines) + line.bytes
    ensures Wants(c, lines + [line], m) == Wants(c, lines, m) + One(line.index == m && !Skips(c, line))
    ensures line.index !in keys ==>
      && HeldBytes(lines + [line], keys) == HeldBytes(lines, keys)
      && HeldBytes(lines + [line], keys + {line.index}) == HeldBytes(lines, keys) + line.bytes
  {
    assert (lines + [line])[..|lines|] == lines;
    assert line.index !in keys ==> keys + {line.index} - {line.index} == keys;
  }

  /** Taking a milestone out takes out the bytes of its last line. */
  lemma {:induction false} HeldWithout(lines: seq<Line>, keys: set<nat>, i: nat)
    requires i < |lines| && lines[i].index in keys
    requires forall j :: i < j < |lines| ==> lines[j].index != lines[i].index
    ensures HeldBytes(lines, keys) == HeldBytes(lines, keys - {lines[i].index}) + lines[i].bytes
    decreases |lines|
  {
    var n, m := |lines| - 1, lines[i].index;
    if i < n {
      var x := lines[n].index;
      var fewer := if x in keys then keys - {x} else keys;
      HeldWithout(lines[..n], fewer, i);
      assert x in keys ==> keys - {x} - {m} == keys - {m} - {x};
    } else {
      var rest := keys - {m};
      assert m !in rest;
    }
  }

  // ------------------------------------------------------------------------------------------------------------
  // Reading a line
  // ------------------------------------------------------------------------------------------------------------

  ghost function Skip(s: State): State
    requires s.pos < |s.file|
  {
    var line := s.file[s.pos];
    s.(pos := s.pos + 1, reports := s.reports + [Report(line.index, line.bytes, true)])
  }

  /** Taking a line into progress with `left` of its messages still to be inserted. */
  ghost function Take(s: State, left: seq<MessageId>): State
    requires s.pos < |s.file|
  {
    var line := s.file[s.pos];
    s.(pos := s.pos + 1, sizes := s.sizes[line.index := line.bytes], inProgress := s.inProgress[line.index := left])
  }

  lemma BookOf(c: Config, s: State, m: nat)
    requires s.pos <= |s.file| && OnceEach(c, s)
    ensures Times(s.reports, m) + One(m in s.inProgress) == Wants(c, s.file[..s.pos], m)
  {
  }

  lemma LineOf(c: Config, s: State, m: nat) returns (i: nat)
    requires Sized(c, s) && m in s.inProgress
    ensures Current(s, i) && s.file[i].index == m && !Skips(c, s.file[i])
  {
    assert HasLine(c, s, m);
    i :| Current(s, i) && s.file[i].index == m && !Skips(c, s.file[i]);
  }

  /** A line that is skipped is about a milestone that is not in progress. */
  lemma SkippedIsNotInProgress(c: Config, s: State)
    requires Sized(c, s) && s.pos < |s.file| && Skips(c, s.file[s.pos])
    ensures s.file[s.pos].index !in s.inProgress
  {
    forall m | m in s.inProgress
      ensures m != s.file[s.pos].index
    {
      var i := LineOf(c, s, m);
    }
  }

  /** A line about a milestone that is not in progress leaves the lines being imported as they are. */
  lemma SameCurrent(s: State, t: State, i: int)
    requires s.pos < |s.file| && s.file[s.pos].index !in s.inProgress
    requires t.file == s.file && t.pos == s.pos + 1 && t.inProgress.Keys == s.inProgress.Keys
    ensures Current(t, i) <==> Current(s, i)
  {
  }

  lemma SkipKeepsSized(c: Config, s: State)
    requires Sized(c, s) && s.pos < |s.file| && Skips(c, s.file[s.pos])
    ensures Sized(c, Skip(s))
  {
    var t := Skip(s);
    SkippedIsNotInProgress(c, s);
    forall i: int
      ensures Current(t, i) <==> Current(s, i)
    {
      SameCurrent(s, t, i);
    }
    forall m | m in t.inProgress
      ensures HasLine(c, t, m)
    {
      var i := LineOf(c, s, m);
      assert Current(t, i);
    }
  }

  lemma SkipKeepsBooks(c: Config, s: State)
    requires Books(c, s) && s.pos < |s.file| && Skips(c, s.file[s.pos])
    ensures Books(c, Skip(s))
  {
    var t, line, lines := Skip(s), s.file[s.pos], s.file[..s.pos];
    SkippedIsNotInProgress(c, s);
    SkipKeepsSized(c, s);
    assert t.file[..t.pos] == lines + [line];
    LinesSnoc(c, lines, line, s.inProgress.Keys, 0);
    ReportsSnoc(s.reports, Report(line.index, line.bytes, true), 0);
    forall m: nat
      ensures Times(t.reports, m) + One(m in t.inProgress) == Wants(c, t.file[..t.pos], m)
    {
      ReportsSnoc(s.reports, Report(line.index, line.bytes, true), m);
      LinesSnoc(c, lines, line, s.inProgress.Keys, m);
      BookOf(c, s, m);
    }
  }

  lemma KeysGrow(left: map<nat, seq<MessageId>>, m: nat, ids: seq<MessageId>)
    requires m !in left
    ensures left[m := ids].Keys == left.Keys + {m} && |left[m := ids]| == |left| + 1
  {
    assert |left[m := ids].Keys| == |left.Keys| + 1;
  }

  /** With a line taken the lines being imported are those of before, and this one. */
  lemma OneMoreCurrent(s: State, left: seq<MessageId>, i: int)
    requires s.pos < |s.file| && s.file[s.pos].index !in s.inProgress
    ensures Current(Take(s, left), i) <==> Current(s, i) || i == s.pos
  {
  }

  lemma TakeKeepsSized(c: Config, s: State, left: seq<MessageId>)
    requires Sized(c, s) && s.pos < |s.file| && s.file[s.pos].index !in s.inProgress && !Skips(c, s.file[s.pos])
    ensures Sized(c, Take(s, left))
  {
    var t := Take(s, left);
    assert t.sizes.Keys == s.sizes.Keys + {s.file[s.pos].index};
    forall i: int
      ensures Current(t, i) <==> Current(s, i) || i == s.pos
    {
      OneMoreCurrent(s, left, i);
    }
    forall m | m in t.inProgress
      ensures HasLine(c, t, m)
    {
      if m in s.inProgress {
        var i := LineOf(c, s, m);
        assert Current(t, i);
      } else {
        assert Current(t, s.pos);
      }
    }
  }

  lemma TakeKeepsOnce(c: Config, s: State, left: seq<MessageId>)
    requires s.pos < |s.file| && OnceEach(c, s) && !Skips(c, s.file[s.pos]) && s.file[s.pos].index !in s.inProgress
    ensures OnceEach(c, Take(s, left))
  {
    var t, line, lines := Take(s, left), s.file[s.pos], s.file[..s.pos];
    assert t.file[..t.pos] == lines + [line];
    forall m: nat
      ensures Times(t.reports, m) + One(m in t.inProgress) == Wants(c, t.file[..t.pos], m)
    {
      LinesSnoc(c, lines, line, {}, m);
      BookOf(c, s, m);
    }
  }

  lemma OneMoreWeighed(c: Config, lines: seq<Line>, line: Line, reports: seq<Report>, keys: set<nat>)
    requires Weighed(lines, reports, keys) && line.index !in keys
    ensures Weighed(lines + [line], reports, keys + {line.index})
  {
    LinesSnoc(c, lines, line, keys, 0);
  }

  lemma TakeWeighs(c: Config, s: State, left: seq<MessageId>)
    requires s.pos < |s.file| && Weighed(s.file[..s.pos], s.reports, s.inProgress.Keys) && s.file[s.pos].index !in s.inProgress
    ensures var t := Take(s, left);
            Weighed(t.file[..t.pos], t.reports, t.inProgress.Keys) && |t.inProgress| == |s.inProgress| + 1
  {
    var line, lines := s.file[s.pos], s.file[..s.pos];
    OneMoreWeighed(c, lines, line, s.reports, s.inProgress.Keys);
    KeysGrow(s.inProgress, line.index, left);
    assert s.file[..s.pos + 1] == lines + [line];
  }

  lemma TakeKeepsBooks(c: Config, s: State, left: seq<MessageId>)
    requires Books(c, s) && s.pos < |s.file| && !Skips(c, s.file[s.pos]) && s.file[s.pos].index !in s.inProgress
    ensures Books(c, Take(s, left)) && |Take(s, left).inProgress| == |s.inProgress| + 1
  {
    TakeKeepsSized(c, s, left);
    TakeKeepsOnce(c, s, left);
    TakeWeighs(c, s, left);
  }

  lemma KeysShrink(left: map<nat, seq<MessageId>>, m: nat)
    requires m in left
    ensures (left - {m}).Keys == left.Keys - {m} && |left - {m}| == |left| - 1
  {
    assert left.Keys == (left - {m}).Keys + {m};
    assert |left.Keys| == |(left - {m}).Keys| + 1;
  }

  /** A milestone whose import is noted. */
  ghost function Noted(s: State, m: nat): State
    requires m in s.sizes
  {
    s.(inProgress := s.inProgress - {m}, sizes := s.sizes - {m}, reports := s.reports + [Report(m, s.sizes[m], false)])
  }

  lemma NotedKeepsSized(c: Config, s: State, m: nat)
    requires Sized(c, s) && m in s.inProgress
    ensures Sized(c, Noted(s, m))
  {
    var t := Noted(s, m);
    assert t.sizes.Keys == s.sizes.Keys - {m} && t.inProgress.Keys == s.inProgress.Keys - {m};
    forall i: int
      ensures Current(t, i) <==> Current(s, i) && s.file[i].index != m
    {
    }
    forall x | x in t.inProgress
      ensures HasLine(c, t, x)
    {
      var i := LineOf(c, s, x);
      assert Current(t, i);
    }
  }

  /** An imported milestone moves from progress to the reports. */
  lemma NotedKeepsBooks(c: Config, s: State, m: nat)
    requires Books(c, s) && m in s.inProgress
    ensures m in s.sizes && Books(c, Noted(s, m)) && |Noted(s, m).inProgress| == |s.inProgress| - 1
  {
    var t, lines := Noted(s, m), s.file[..s.pos];
    NotedKeepsSized(c, s, m);
    KeysShrink(s.inProgress, m);
    var i := LineOf(c, s, m);
    assert lines[i] == s.file[i];
    HeldWithout(lines, s.inProgress.Keys, i);
    ReportsSnoc(s.reports, Report(m, s.sizes[m], false), 0);
    forall x: nat
      ensures Times(t.reports, x) + One(x in t.inProgress) == Wants(c, t.file[..t.pos], x)
    {
      ReportsSnoc(s.reports, Report(m, s.sizes[m], false), x);
      BookOf(c, s, x);
    }
  }

  /** The state in front of the next line to import, or at the end of the file. */
  ghost function Scan(c: Config, s: State): State
    requires s.pos <= |s.file|
    decreases |s.file| - s.pos
  {
    if s.pos < |s.file| && Skips(c, s.file[s.pos]) then Scan(c, Skip(s)) else s
  }

  lemma {:induction false} NextIsScan(c: Config, s: State)
    requires s.pos <= |s.file|
    ensures var (t, line), u := Next(c, s), Scan(c, s);
            && u.pos <= |u.file| && u.file == s.file && (u.pos < |u.file| ==> !Skips(c, u.file[u.pos]))
            && (line.Some? <==> u.pos < |u.file|)
            && (line.None? ==> t == u)
            && (line.Some? ==> line.value == u.file[u.pos] && forall left :: Taken(c, s, left) == Take(u, left))
    decreases |s.file| - s.pos
  {
    if s.pos < |s.file| && Skips(c, s.file[s.pos]) {
      NextIsScan(c, Skip(s));
      assert Next(c, s) == Next(c, Skip(s));
      assert forall left :: Taken(c, s, left) == Taken(c, Skip(s), left);
    }
  }

  /** The next line taken into progress. */
  ghost function Taken(c: Config, s: State, left: seq<MessageId>): State
    requires s.pos <= |s.file|
  {
    var (t, line) := Next(c, s);
    if line.None? then t else t.(inProgress := t.inProgress[line.value.index := left])
  }

  /** What scanning leaves alone. */
  ghost predicate SameWork(s: State, t: State) {
    t.file == s.file && t.inProgress == s.inProgress && t.started == s.started && t.outcome == s.outcome && t.eof == s.eof
  }

  lemma {:induction false} ScanKeepsWork(c: Config, s: State)
    requires s.pos <= |s.file|
    ensures SameWork(s, Scan(c, s)) && s.pos <= Scan(c, s).pos
    ensures forall i :: s.pos <= i < Scan(c, s).pos && i < |s.file| ==> Skips(c, s.file[i])
    decreases |s.file| - s.pos
  {
    if s.pos < |s.file| && Skips(c, s.file[s.pos]) {
      ScanKeepsWork(c, Skip(s));
    }
  }

  // ------------------------------------------------------------------------------------------------------------
  // Tokens: every milestone in progress waits for exactly one thing
  // ------------------------------------------------------------------------------------------------------------

  ghost predicate OneToken(tokens: seq<Token>, keys: set<nat>) {
    && (forall i, j :: 0 <= i < j < |tokens| ==> tokens[i].index != tokens[j].index)
    && (forall i :: 0 <= i < |tokens| ==> tokens[i].index in keys)
    && (forall m :: m in keys ==> exists i :: 0 <= i < |tokens| && tokens[i].index == m)
  }

  lemma TokenAdded(tokens: seq<Token>, keys: set<nat>, t: Token)
    requires OneToken(tokens, keys) && t.index !in keys
    ensures OneToken(tokens + [t], keys + {t.index})
  {
    var all := tokens + [t];
    assert all[|tokens|] == t;
    forall m | m in keys
      ensures exists i :: 0 <= i < |all| && all[i].index == m
    {
      var i :| 0 <= i < |tokens| && tokens[i].index == m;
      assert all[i].index == m;
    }
  }

  lemma TokenRemoved(tokens: seq<Token>, keys: set<nat>, k: nat)
    requires OneToken(tokens, keys) && k < |tokens|
    ensures OneToken(Without(tokens, k), keys - {tokens[k].index})
  {
    var rest, m := Without(tokens, k), tokens[k].index;
    assert forall i :: 0 <= i < |rest| ==> rest[i] == tokens[if i < k then i else i + 1];
    forall x | x in keys - {m}
      ensures exists i :: 0 <= i < |rest| && rest[i].index == x
    {
      var i :| 0 <= i < |tokens| && tokens[i].index == x;
      assert rest[if i < k then i else i - 1].index == x;
    }
  }

  /** A token moves on. */
  lemma TokenMoved(tokens: seq<Token>, keys: set<nat>, k: nat, work: Work)
    requires OneToken(tokens, keys) && k < |tokens|
    ensures OneToken(Without(tokens, k) + [Token(tokens[k].index, work)], keys)
  {
    TokenRemoved(tokens, keys, k);
    TokenAdded(Without(tokens, k), keys - {tokens[k].index}, Token(tokens[k].index, work));
    assert keys - {tokens[k].index} + {tokens[k].index} == keys;
  }

  // ------------------------------------------------------------------------------------------------------------
  // Acknowledgements
  // ------------------------------------------------------------------------------------------------------------

  /** What has been acknowledged suffices for what milestone `m` waits for. Messages that are neither left nor being
      inserted are acknowledged; the analytics row comes after all messages, the sync row after the analytics row. */
  ghost predicate Supported(c: Config, line: Line, left: seq<MessageId>, work: Work, acks: seq<Ack>) {
    && (!c.analyticsOnly ==>
         && (!work.FailedDue? ==> forall id :: id in line.messages ==>
              id in left || (work.Saving? && id in work.ids) || AckMessage(line.index, id) in acks)
         && (work.Analyzing? || work.Syncing? || work.ImportedDue? ==> left == [])
         && (work.Syncing? ==> AckAnalytics(line.index) in acks)
         && (work.ImportedDue? ==> AckAnalytics(line.index) in acks && AckSync(line.index) in acks))
    && (c.analyticsOnly ==>
         && (work.Analyzing? || work.ImportedDue? || work.FailedDue?)
         && (work.ImportedDue? ==> AckAnalytics(line.index) in acks))
  }

  /** The milestone's rows are all written. */
  ghost predicate Stored(c: Config, line: Line, acks: seq<Ack>) {
    && AckAnalytics(line.index) in acks
    && (!c.analyticsOnly ==> AckSync(line.index) in acks && forall id :: id in line.messages ==> AckMessage(line.index, id) in acks)
  }

  ghost predicate TokenSupported(c: Config, s: State, t: Token, acks: seq<Ack>) {
    forall i :: Current(s, i) && s.file[i].index == t.index ==> Supported(c, s.file[i], s.inProgress[t.index], t.work, acks)
  }

  ghost predicate AllSupported(c: Config, s: State, tokens: seq<Token>, acks: seq<Ack>) {
    forall k :: 0 <= k < |tokens| ==> TokenSupported(c, s, tokens[k], acks)
  }

  /** Lines to import that were read and are not being imported any more are stored. */
  ghost predicate AllStored(c: Config, s: State, acks: seq<Ack>) {
    forall i :: 0 <= i < s.pos && i < |s.file| && !Skips(c, s.file[i]) && !Current(s, i) ==> Stored(c, s.file[i], acks)
  }

  /** While the Importer runs every milestone in progress waits for one thing, which what happened supports. */
  ghost predicate Tracked(c: Config, s: State, tokens: seq<Token>, acks: seq<Ack>) {
    OneToken(tokens, s.inProgress.Keys) && AllSupported(c, s, tokens, acks)
  }

  ghost predicate Good(c: Config, sys: System) {
    var s := sys.importer;
    && c.parallelism > 0
    && Books(c, s)
    && |s.inProgress| <= c.parallelism
    && AllStored(c, s, sys.acks)
    && (!s.outcome.Aborted? ==> Tracked(c, s, sys.tokens, sys.acks))
    && (s.outcome.Imported? ==> s.pos == |s.file| && s.inProgress == map[])
  }

  lemma MoreAcks(c: Config, s: State, tokens: seq<Token>, acks: seq<Ack>, more: seq<Ack>)
    requires AllSupported(c, s, tokens, acks) && AllStored(c, s, acks)
    ensures AllSupported(c, s, tokens, acks + more) && AllStored(c, s, acks + more)
  {
    forall k | 0 <= k < |tokens|
      ensures TokenSupported(c, s, tokens[k], acks + more)
    {
      assert TokenSupported(c, s, tokens[k], acks);
    }
  }

  lemma SupportedWithout(c: Config, s: State, tokens: seq<Token>, k: nat, acks: seq<Ack>)
    requires AllSupported(c, s, tokens, acks) && k < |tokens|
    ensures AllSupported(c, s, Without(tokens, k), acks)
  {
    forall i | 0 <= i < |tokens| - 1
      ensures TokenSupported(c, s, Without(tokens, k)[i], acks)
    {
      assert Without(tokens, k)[i] == tokens[if i < k then i else i + 1];
    }
  }

  /** A token moves on with an acknowledgement. */
  lemma MoveKeepsTracked(c: Config, s: State, tokens: seq<Token>, k: nat, work: Work, acks: seq<Ack>, more: seq<Ack>)
    requires Tracked(c, s, tokens, acks) && AllStored(c, s, acks) && k < |tokens|
    requires TokenSupported(c, s, Token(tokens[k].index, work), acks + more)
    ensures Tracked(c, s, Without(tokens, k) + [Token(tokens[k].index, work)], acks + more) && AllStored(c, s, acks + more)
  {
    TokenMoved(tokens, s.inProgress.Keys, k, work);
    SupportedWithout(c, s, tokens, k, acks);
    MoreAcks(c, s, Without(tokens, k), acks, more);
  }

  // ------------------------------------------------------------------------------------------------------------
  // Every action
  // ------------------------------------------------------------------------------------------------------------

  /** The database acknowledges, or fails, what token `k` waits for. */
  ghost function Answer(c: Config, work: Work, m: nat, ok: bool): (Work, seq<Ack>) {
    if !ok then (FailedDue, [])
    else
      match work
      case Saving(ids) => if ids == [] then (MoreDue, []) else (Saving(ids[1..]), [AckMessage(m, ids[0])])
      case Analyzing => (if c.analyticsOnly then ImportedDue else Syncing, [AckAnalytics(m)])
      case Syncing => (ImportedDue, [AckSync(m)])
      case other => (other, [])
  }

  lemma AnswerIsSupported(c: Config, line: Line, left: seq<MessageId>, work: Work, acks: seq<Ack>, ok: bool)
    requires Supported(c, line, left, work, acks) && (work.Saving? || work.Analyzing? || work.Syncing?)
    ensures var (now, more) := Answer(c, work, line.index, ok); Supported(c, line, left, now, acks + more)
  {
    var (now, more) := Answer(c, work, line.index, ok);
    if work.Saving? && work.ids != [] {
      assert forall id :: id in work.ids ==> id == work.ids[0] || id in work.ids[1..];
    }
  }

  predicate Answers(work: Work) {
    work.Saving? || work.Analyzing? || work.Syncing?
  }

  lemma ActAnswers(c: Config, sys: System, k: nat, ok: bool)
    requires sys.importer.pos <= |sys.importer.file| && sys.importer.outcome.Running?
    requires k < |sys.tokens| && Answers(sys.tokens[k].work)
    ensures var m := sys.tokens[k].index;
            var (now, more) := Answer(c, sys.tokens[k].work, m, ok);
            Act(c, sys, k, ok) == Some(sys.(tokens := Without(sys.tokens, k) + [Token(m, now)], acks := sys.acks + more))
  {
    assert sys.acks + [] == sys.acks;
  }

  lemma AnswerTokenSupported(c: Config, s: State, t: Token, acks: seq<Ack>, ok: bool)
    requires TokenSupported(c, s, t, acks) && Answers(t.work)
    ensures var (now, more) := Answer(c, t.work, t.index, ok); TokenSupported(c, s, Token(t.index, now), acks + more)
  {
    var (now, more) := Answer(c, t.work, t.index, ok);
    forall i | Current(s, i) && s.file[i].index == t.index
      ensures Supported(c, s.file[i], s.inProgress[t.index], now, acks + more)
    {
      AnswerIsSupported(c, s.file[i], s.inProgress[t.index], t.work, acks, ok);
    }
  }

  lemma AnswerKeepsGood(c: Config, sys: System, k: nat, ok: bool)
    requires Good(c, sys) && sys.importer.outcome.Running? && k < |sys.tokens| && Answers(sys.tokens[k].work)
    ensures Act(c, sys, k, ok).Some? && Good(c, Act(c, sys, k, ok).value)
  {
    var t := sys.tokens[k];
    var (now, more) := Answer(c, t.work, t.index, ok);
    ActAnswers(c, sys, k, ok);
    AnswerTokenSupported(c, sys.importer, t, sys.acks, ok);
    MoveKeepsTracked(c, sys.importer, sys.tokens, k, now, sys.acks, more);
  }

  /** Which lines are being imported, and what is known of them, depends on the milestones in progress only. */
  lemma SizedAlike(c: Config, s: State, t: State)
    requires Sized(c, s) && t.file == s.file && t.pos == s.pos && t.sizes == s.sizes && t.inProgress.Keys == s.inProgress.Keys
    ensures Sized(c, t) && forall i :: Current(t, i) <==> Current(s, i)
  {
    assert forall m :: m in t.inProgress <==> m in s.inProgress.Keys;
    assert forall i :: Current(t, i) <==> Current(s, i);
    forall m | m in t.inProgress
      ensures HasLine(c, t, m)
    {
      assert HasLine(c, s, m);
    }
  }

  /** Only which milestones are in progress matters for the books, not how many of their messages are left. */
  lemma LeftIsFree(c: Config, s: State, m: nat, left: seq<MessageId>)
    requires Books(c, s) && m in s.inProgress
    ensures var t := s.(inProgress := s.inProgress[m := left]);
            Books(c, t) && |t.inProgress| == |s.inProgress| && t.inProgress.Keys == s.inProgress.Keys
  {
    var t := s.(inProgress := s.inProgress[m := left]);
    assert t.inProgress.Keys == s.inProgress.Keys;
    assert |t.inProgress.Keys| == |s.inProgress.Keys|;
    SizedAlike(c, s, t);
    forall x: nat
      ensures Times(t.reports, x) + One(x in t.inProgress) == Wants(c, t.file[..t.pos], x)
    {
      BookOf(c, s, x);
    }
  }

  lemma BatchSplits(c: Config, ids: seq<MessageId>)
    ensures ids == Batch(c, ids) + AfterBatch(c, ids)
  {
  }

  /** Changing what is left of one milestone does not concern the tokens of others. */
  lemma OthersSupported(c: Config, s: State, tokens: seq<Token>, acks: seq<Ack>, t: State, m: nat)
    requires AllSupported(c, s, tokens, acks) && t.file == s.file
    requires forall i :: 0 <= i < |tokens| ==> tokens[i].index != m
    requires forall x :: x != m && x in t.inProgress ==> x in s.inProgress && t.inProgress[x] == s.inProgress[x]
    requires forall i :: Current(t, i) && s.file[i].index != m ==> Current(s, i)
    ensures AllSupported(c, t, tokens, acks)
  {
    forall k | 0 <= k < |tokens|
      ensures TokenSupported(c, t, tokens[k], acks)
    {
      assert TokenSupported(c, s, tokens[k], acks);
    }
  }

  lemma NotInRest(tokens: seq<Token>, keys: set<nat>, k: nat)
    requires OneToken(tokens, keys) && k < |tokens|
    ensures forall i :: 0 <= i < |Without(tokens, k)| ==> Without(tokens, k)[i].index != tokens[k].index
  {
    var rest := Without(tokens, k);
    assert forall i :: 0 <= i < |rest| ==> rest[i] == tokens[if i < k then i else i + 1];
  }

  lemma AddSupported(c: Config, s: State, tokens: seq<Token>, t: Token, acks: seq<Ack>)
    requires AllSupported(c, s, tokens, acks) && TokenSupported(c, s, t, acks)
    ensures AllSupported(c, s, tokens + [t], acks)
  {
  }

  /** What a milestone waits for when the Importer goes on with it. */
  ghost function MoreWork(c: Config, ids: seq<MessageId>): Work {
    if ids != [] then Saving(Batch(c, ids)) else Analyzing
  }

  lemma MoreIsSupported(c: Config, line: Line, ids: seq<MessageId>, acks: seq<Ack>)
    requires Supported(c, line, ids, MoreDue, acks)
    ensures Supported(c, line, AfterBatch(c, ids), MoreWork(c, ids), acks)
  {
    BatchSplits(c, ids);
    assert forall id :: id in ids ==> id in Batch(c, ids) || id in AfterBatch(c, ids);
  }

  /** The Importer after it went on with milestone `m`. */
  ghost function WithMore(c: Config, s: State, m: nat): State
    requires m in s.inProgress
  {
    var ids := s.inProgress[m];
    Begin(s, m, MoreWork(c, ids)).(inProgress := s.inProgress[m := AfterBatch(c, ids)])
  }

  lemma ActMore(c: Config, sys: System, k: nat, ok: bool)
    requires sys.importer.pos <= |sys.importer.file| && sys.importer.outcome.Running?
    requires k < |sys.tokens| && sys.tokens[k].work.MoreDue? && sys.tokens[k].index in sys.importer.inProgress
    ensures var m := sys.tokens[k].index;
            var token := Token(m, MoreWork(c, sys.importer.inProgress[m]));
            Act(c, sys, k, ok) == Some(System(WithMore(c, sys.importer, m), Without(sys.tokens, k) + [token], sys.acks))
  {
    var s, m := sys.importer, sys.tokens[k].index;
    var t := WithMore(c, s, m);
    assert s.inProgress[m] == [] ==> s.inProgress[m := []] == s.inProgress;
    assert t.started[|s.started|..] == [Token(m, MoreWork(c, s.inProgress[m]))];
  }

  lemma MoreTracked(c: Config, s: State, tokens: seq<Token>, k: nat, acks: seq<Ack>)
    requires Tracked(c, s, tokens, acks) && k < |tokens| && tokens[k].work.MoreDue? && tokens[k].index in s.inProgress
    ensures var m := tokens[k].index;
            Tracked(c, WithMore(c, s, m), Without(tokens, k) + [Token(m, MoreWork(c, s.inProgress[m]))], acks)
  {
    var m, rest := tokens[k].index, Without(tokens, k);
    var ids, t := s.inProgress[m], WithMore(c, s, m);
    var token := Token(m, MoreWork(c, ids));
    NotInRest(tokens, s.inProgress.Keys, k);
    TokenMoved(tokens, s.inProgress.Keys, k, token.work);
    assert t.inProgress.Keys == s.inProgress.Keys;
    SupportedWithout(c, s, tokens, k, acks);
    OthersSupported(c, s, rest, acks, t, m);
    forall i | Current(t, i) && t.file[i].index == m
      ensures Supported(c, t.file[i], t.inProgress[m], token.work, acks)
    {
      assert Current(s, i) && TokenSupported(c, s, tokens[k], acks);
      MoreIsSupported(c, s.file[i], ids, acks);
    }
    AddSupported(c, t, rest, token, acks);
  }

  lemma MoreKeepsGood(c: Config, sys: System, k: nat, ok: bool)
    requires Good(c, sys) && sys.importer.outcome.Running? && k < |sys.tokens| && sys.tokens[k].work.MoreDue?
    ensures Act(c, sys, k, ok).Some? && Good(c, Act(c, sys, k, ok).value)
  {
    var s, m := sys.importer, sys.tokens[k].index;
    ActMore(c, sys, k, ok);
    MoreTracked(c, s, sys.tokens, k, sys.acks);
    MoreBooks(c, s, m, AfterBatch(c, s.inProgress[m]), MoreWork(c, s.inProgress[m]));
    MoreStored(c, s, WithMore(c, s, m), sys.acks);
  }

  lemma MoreStored(c: Config, s: State, t: State, acks: seq<Ack>)
    requires AllStored(c, s, acks) && t.file == s.file && t.pos == s.pos && t.inProgress.Keys == s.inProgress.Keys
    ensures AllStored(c, t, acks)
  {
    assert forall m :: m in t.inProgress <==> m in s.inProgress.Keys;
    assert forall i :: Current(t, i) <==> Current(s, i);
  }

  lemma MoreBooks(c: Config, s: State, m: nat, left: seq<MessageId>, work: Work)
    requires Books(c, s) && m in s.inProgress
    ensures var t := Begin(s, m, work).(inProgress := s.inProgress[m := left]);
            Books(c, t) && |t.inProgress| == |s.inProgress| && t.inProgress.Keys == s.inProgress.Keys
  {
    LeftIsFree(c, s, m, left);
    var t := s.(inProgress := s.inProgress[m := left]);
    StartedIsFree(c, t, Begin(t, m, work));
  }

  lemma StartedIsFree(c: Config, s: State, t: State)
    requires Books(c, s) && t == s.(started := t.started, eof := t.eof, outcome := t.outcome)
    ensures Books(c, t)
  {
    SizedAlike(c, s, t);
    forall x: nat
      ensures Times(t.reports, x) + One(x in t.inProgress) == Wants(c, t.file[..t.pos], x)
    {
      BookOf(c, s, x);
    }
  }

  // ------------------------------------------------------------------------------------------------------------
  // Starting on the next line
  // ------------------------------------------------------------------------------------------------------------

  ghost function FirstWork(c: Config, line: Line): Work {
    if c.analyticsOnly then Analyzing else Saving(Batch(c, line.messages))
  }

  ghost function FirstLeft(c: Config, line: Line): seq<MessageId> {
    if c.analyticsOnly then line.messages else AfterBatch(c, line.messages)
  }

  lemma SkipKeepsTracked(c: Config, s: State, tokens: seq<Token>, acks: seq<Ack>)
    requires Tracked(c, s, tokens, acks) && AllStored(c, s, acks)
    requires s.pos < |s.file| && Skips(c, s.file[s.pos]) && s.file[s.pos].index !in s.inProgress
    ensures Tracked(c, Skip(s), tokens, acks) && AllStored(c, Skip(s), acks)
  {
    var t := Skip(s);
    forall i: int
      ensures Current(t, i) <==> Current(s, i)
    {
      SameCurrent(s, t, i);
    }
    forall k | 0 <= k < |tokens|
      ensures TokenSupported(c, t, tokens[k], acks)
    {
      assert TokenSupported(c, s, tokens[k], acks);
    }
  }

  lemma {:induction false} ScanKeepsGood(c: Config, s: State, tokens: seq<Token>, acks: seq<Ack>)
    requires Good(c, System(s, tokens, acks)) && s.outcome.Running?
    ensures Good(c, System(Scan(c, s), tokens, acks))
    decreases |s.file| - s.pos
  {
    if s.pos < |s.file| && Skips(c, s.file[s.pos]) {
      SkippedIsNotInProgress(c, s);
      SkipKeepsBooks(c, s);
      SkipKeepsTracked(c, s, tokens, acks);
      ScanKeepsGood(c, Skip(s), tokens, acks);
    }
  }

  lemma NoMoreKeepsGood(c: Config, s: State, tokens: seq<Token>, acks: seq<Ack>)
    requires Good(c, System(s, tokens, acks)) && s.outcome.Running? && !HasNext(c, s)
    ensures Good(c, System(StartNext(c, s), tokens, acks))
    ensures StartNext(c, s).pos == |s.file| && StartNext(c, s).inProgress == s.inProgress
  {
    NextIsScan(c, s);
    ScanKeepsGood(c, s, tokens, acks);
    ScanKeepsWork(c, s);
  }

  /** The milestone of the next line to import is not in progress. */
  ghost predicate NextIsNew(c: Config, s: State)
    requires s.pos <= |s.file|
  {
    HasNext(c, s) ==> Next(c, s).1.value.index !in s.inProgress
  }

  /** Starting on the line found is taking it, after scanning for it. */
  lemma StartNextTakes(c: Config, s: State)
    requires s.pos <= |s.file| && HasNext(c, s)
    ensures var u, line := Scan(c, s), Next(c, s).1.value;
            && u.pos < |u.file| && line == u.file[u.pos] && !Skips(c, line)
            && StartNext(c, s) == Begin(Take(u, FirstLeft(c, line)), line.index, FirstWork(c, line))
  {
    NextIsScan(c, s);
    assert Taken(c, s, FirstLeft(c, Next(c, s).1.value)) == Take(Scan(c, s), FirstLeft(c, Next(c, s).1.value));
  }

  lemma TakeKeepsGood(c: Config, u: State, tokens: seq<Token>, acks: seq<Ack>)
    requires Good(c, System(u, tokens, acks)) && u.outcome.Running? && |u.inProgress| < c.parallelism
    requires u.pos < |u.file| && !Skips(c, u.file[u.pos]) && u.file[u.pos].index !in u.inProgress
    ensures var line := u.file[u.pos];
            var t := Begin(Take(u, FirstLeft(c, line)), line.index, FirstWork(c, line));
            && Good(c, System(t, tokens + [Token(line.index, FirstWork(c, line))], acks))
            && |t.inProgress| == |u.inProgress| + 1
  {
    var line := u.file[u.pos];
    var t := Take(u, FirstLeft(c, line));
    TakeKeepsBooks(c, u, FirstLeft(c, line));
    StartedIsFree(c, t, Begin(t, line.index, FirstWork(c, line)));
    TakeTracked(c, u, line, tokens, acks);
  }

  /** The line found is started on, with one token. */
  lemma StartNextKeepsGood(c: Config, s: State, tokens: seq<Token>, acks: seq<Ack>)
    requires Good(c, System(s, tokens, acks)) && s.outcome.Running? && |s.inProgress| < c.parallelism
    requires HasNext(c, s) && NextIsNew(c, s)
    ensures var line := Next(c, s).1.value;
            && Good(c, System(StartNext(c, s), tokens + [Token(line.index, FirstWork(c, line))], acks))
            && StartNext(c, s).started == s.started + [Token(line.index, FirstWork(c, line))]
            && |StartNext(c, s).inProgress| == |s.inProgress| + 1
            && StartNext(c, s).outcome == s.outcome && StartNext(c, s).eof == s.eof
  {
    StartNextTakes(c, s);
    ScanKeepsGood(c, s, tokens, acks);
    ScanKeepsWork(c, s);
    TakeKeepsGood(c, Scan(c, s), tokens, acks);
  }

  lemma TakeTracked(c: Config, u: State, line: Line, tokens: seq<Token>, acks: seq<Ack>)
    requires u.pos < |u.file| && line == u.file[u.pos] && line.index !in u.inProgress
    requires Tracked(c, u, tokens, acks) && AllStored(c, u, acks)
    ensures var token := Token(line.index, FirstWork(c, line));
            var t := Begin(Take(u, FirstLeft(c, line)), line.index, token.work);
            Tracked(c, t, tokens + [token], acks) && AllStored(c, t, acks)
  {
    var token := Token(line.index, FirstWork(c, line));
    var t := Begin(Take(u, FirstLeft(c, line)), line.index, token.work);
    forall i: int
      ensures Current(t, i) <==> Current(u, i) || i == u.pos
    {
      OneMoreCurrent(u, FirstLeft(c, line), i);
    }
    TokenAdded(tokens, u.inProgress.Keys, token);
    assert t.inProgress.Keys == u.inProgress.Keys + {line.index};
    OthersSupported(c, u, tokens, acks, t, line.index);
    BatchSplits(c, line.messages);
    assert TokenSupported(c, t, token, acks);
    AddSupported(c, t, tokens, token, acks);
  }

  // ------------------------------------------------------------------------------------------------------------
  // A milestone is imported
  // ------------------------------------------------------------------------------------------------------------

  lemma NotedTracked(c: Config, s: State, tokens: seq<Token>, k: nat, acks: seq<Ack>)
    requires Tracked(c, s, tokens, acks) && AllStored(c, s, acks) && s.sizes.Keys == s.inProgress.Keys
    requires k < |tokens| && tokens[k].work.ImportedDue? && tokens[k].index in s.inProgress
    ensures Tracked(c, Noted(s, tokens[k].index), Without(tokens, k), acks) && AllStored(c, Noted(s, tokens[k].index), acks)
  {
    var m, rest := tokens[k].index, Without(tokens, k);
    var t := Noted(s, m);
    assert t.inProgress.Keys == s.inProgress.Keys - {m};
    TokenRemoved(tokens, s.inProgress.Keys, k);
    NotInRest(tokens, s.inProgress.Keys, k);
    SupportedWithout(c, s, tokens, k, acks);
    OthersSupported(c, s, rest, acks, t, m);
    forall i | 0 <= i < t.pos && i < |t.file| && !Skips(c, t.file[i]) && !Current(t, i)
      ensures Stored(c, t.file[i], acks)
    {
      if Current(s, i) {
        assert TokenSupported(c, s, tokens[k], acks);
      }
    }
  }

  lemma NotedKeepsGood(c: Config, sys: System, k: nat)
    requires Good(c, sys) && sys.importer.outcome.Running? && k < |sys.tokens| && sys.tokens[k].work.ImportedDue?
    ensures var s, m := sys.importer, sys.tokens[k].index;
            && m in s.inProgress && m in s.sizes
            && Good(c, System(Noted(s, m), Without(sys.tokens, k), sys.acks))
            && |Noted(s, m).inProgress| < c.parallelism
  {
    NotedKeepsBooks(c, sys.importer, sys.tokens[k].index);
    NotedTracked(c, sys.importer, sys.tokens, k, sys.acks);
  }

  /** The Importer after it noted the import of `m` and started on the next line, if there is one. */
  ghost function AfterImport(c: Config, s: State, m: nat): State
    requires s.pos <= |s.file| && m in s.sizes
  {
    var u := StartNext(c, Noted(s, m));
    if !HasNext(c, Noted(s, m)) && u.inProgress == map[] then u.(outcome := Imported) else u
  }

  lemma ActImports(c: Config, sys: System, k: nat, ok: bool, more: seq<Token>)
    requires sys.importer.pos <= |sys.importer.file| && sys.importer.outcome.Running?
    requires k < |sys.tokens| && sys.tokens[k].work.ImportedDue?
    requires sys.tokens[k].index in sys.importer.inProgress && sys.tokens[k].index in sys.importer.sizes
    requires AfterImport(c, sys.importer, sys.tokens[k].index).started == sys.importer.started + more
    ensures Act(c, sys, k, ok)
         == Some(System(AfterImport(c, sys.importer, sys.tokens[k].index), Without(sys.tokens, k) + more, sys.acks))
  {
    var t := AfterImport(c, sys.importer, sys.tokens[k].index);
    assert HandleImported(c, sys.importer, sys.tokens[k].index) == Some(t);
    assert t.started[|sys.importer.started|..] == more;
  }

  /** With nothing left to read and nothing in progress the Importer is done. */
  lemma DoneKeepsGood(c: Config, s: State, tokens: seq<Token>, acks: seq<Ack>)
    requires Good(c, System(s, tokens, acks)) && s.outcome.Running? && s.pos == |s.file| && s.inProgress == map[]
    ensures Good(c, System(s.(outcome := Imported), tokens, acks))
  {
    StartedIsFree(c, s, s.(outcome := Imported));
    SameTracked(c, s, s.(outcome := Imported), tokens, acks);
  }

  /** When token `k` makes the Importer start on another line, that line is not about a milestone in progress. */
  ghost predicate NextFits(c: Config, sys: System, k: nat) {
    (&& k < |sys.tokens| && sys.tokens[k].work.ImportedDue? && sys.tokens[k].index in sys.importer.sizes
     && sys.importer.pos <= |sys.importer.file|) ==>
      NextIsNew(c, Noted(sys.importer, sys.tokens[k].index))
  }

  lemma ImportedKeepsGood(c: Config, sys: System, k: nat, ok: bool)
    requires Good(c, sys) && sys.importer.outcome.Running? && k < |sys.tokens| && sys.tokens[k].work.ImportedDue?
    requires NextFits(c, sys, k)
    ensures Act(c, sys, k, ok).Some? && Good(c, Act(c, sys, k, ok).value)
  {
    var m, rest := sys.tokens[k].index, Without(sys.tokens, k);
    NotedKeepsGood(c, sys, k);
    var t := Noted(sys.importer, m);
    if HasNext(c, t) {
      StartNextKeepsGood(c, t, rest, sys.acks);
      ActImports(c, sys, k, ok, [Token(Next(c, t).1.value.index, FirstWork(c, Next(c, t).1.value))]);
    } else {
      NoMoreKeepsGood(c, t, rest, sys.acks);
      NextKeepsStarted(c, t);
      var u := StartNext(c, t);
      if u.inProgress == map[] { DoneKeepsGood(c, u, rest, sys.acks); }
      ActImports(c, sys, k, ok, []);
      assert rest + [] == rest;
    }
  }

  lemma NextKeepsStarted(c: Config, s: State)
    requires s.pos <= |s.file| && !HasNext(c, s)
    ensures var u := StartNext(c, s); u.started == s.started && u.outcome == s.outcome && u.started == s.started + []
  {
    NextIsScan(c, s);
    ScanKeepsWork(c, s);
  }

  lemma SameTracked(c: Config, s: State, t: State, tokens: seq<Token>, acks: seq<Ack>)
    requires Tracked(c, s, tokens, acks) && AllStored(c, s, acks) && t == s.(started := t.started, eof := t.eof, outcome := t.outcome)
    ensures Tracked(c, t, tokens, acks) && AllStored(c, t, acks)
  {
    assert forall i :: Current(t, i) <==> Current(s, i);
    forall k | 0 <= k < |tokens|
      ensures TokenSupported(c, t, tokens[k], acks)
    {
      assert TokenSupported(c, s, tokens[k], acks);
    }
  }

  lemma ActFails(c: Config, sys: System, k: nat, ok: bool)
    requires sys.importer.pos <= |sys.importer.file| && sys.importer.outcome.Running?
    requires k < |sys.tokens| && sys.tokens[k].work.FailedDue?
    ensures Act(c, sys, k, ok)
         == Some(sys.(importer := sys.importer.(outcome := Aborted), tokens := Without(sys.tokens, k)))
  {
  }

  lemma FailureKeepsGood(c: Config, sys: System, k: nat, ok: bool)
    requires Good(c, sys) && sys.importer.outcome.Running? && k < |sys.tokens| && sys.tokens[k].work.FailedDue?
    ensures Act(c, sys, k, ok).Some? && Good(c, Act(c, sys, k, ok).value)
  {
    ActFails(c, sys, k, ok);
    AbortKeepsGood(c, sys, Without(sys.tokens, k));
  }

  lemma AbortKeepsGood(c: Config, sys: System, tokens: seq<Token>)
    requires Good(c, sys)
    ensures Good(c, sys.(importer := sys.importer.(outcome := Aborted), tokens := tokens))
  {
    var t := sys.importer.(outcome := Aborted);
    StartedIsFree(c, sys.importer, t);
    MoreStored(c, sys.importer, t, sys.acks);
  }

  lemma ActKeepsGood(c: Config, sys: System, k: nat, ok: bool)
    requires Good(c, sys) && NextFits(c, sys, k)
    ensures Act(c, sys, k, ok).Some? && Good(c, Act(c, sys, k, ok).value)
  {
    if k < |sys.tokens| && sys.importer.outcome.Running? {
      match sys.tokens[k].work
      case MoreDue => MoreKeepsGood(c, sys, k, ok);
      case ImportedDue => ImportedKeepsGood(c, sys, k, ok);
      case FailedDue => FailureKeepsGood(c, sys, k, ok);
      case _ => AnswerKeepsGood(c, sys, k, ok);
    }
  }

  // ------------------------------------------------------------------------------------------------------------
  // Every run
  // ------------------------------------------------------------------------------------------------------------

  /** While the first milestones are started every worker begun is in flight and nothing is acknowledged. */
  ghost predicate Filling(c: Config, s: State) {
    Good(c, System(s, s.started, [])) && s.outcome.Running?
  }

  lemma FillOneKeeps(c: Config, s: State)
    requires Filling(c, s) && |s.inProgress| < c.parallelism && (s.eof ==> s.pos == |s.file|)
    requires NextIsNew(c, s)
    ensures var t := FillOne(c, s);
            && Filling(c, t) && (t.eof ==> t.pos == |t.file|)
            && |t.inProgress| == |s.inProgress| + One(!s.eof && HasNext(c, s))
  {
    if !s.eof {
      if HasNext(c, s) {
        StartNextKeepsGood(c, s, s.started, []);
      } else {
        NoMoreKeepsGood(c, s, s.started, []);
        NextKeepsStarted(c, s);
        EofIsFree(c, StartNext(c, s));
      }
    }
  }

  /** What every step keeps holds after any number of steps. */
  lemma {:induction false} FillInduction(c: Config, s: State, n: nat, p: (State, nat) -> bool)
    requires s.pos <= |s.file| && p(s, 0)
    requires forall u: State, k: nat :: k < n && p(u, k) ==> u.pos <= |u.file| && p(FillOne(c, u), k + 1)
    ensures p(Fill(c, s, n), n)
    decreases n
  {
    if n > 0 {
      FillInduction(c, s, n - 1, p);
    }
  }

  lemma EofIsFree(c: Config, s: State)
    requires Good(c, System(s, s.started, [])) && s.outcome.Running?
    ensures Good(c, System(s.(eof := true), s.started, []))
  {
    StartedIsFree(c, s, s.(eof := true));
    SameTracked(c, s, s.(eof := true), s.started, []);
  }

  ghost function Empty(file: seq<Line>): State {
    State(file, 0, map[], map[], false, [], [], Running)
  }

  lemma EmptyIsGood(c: Config, file: seq<Line>)
    requires c.parallelism > 0
    ensures Good(c, System(Empty(file), [], []))
  {
    assert file[..0] == [];
  }

  // ------------------------------------------------------------------------------------------------------------
  // Files whose lines do not meet
  // ------------------------------------------------------------------------------------------------------------

  /** No two lines to import are about the same milestone. */
  ghost predicate Apart(c: Config, file: seq<Line>) {
    forall i, j :: 0 <= i < j < |file| && !Skips(c, file[i]) && !Skips(c, file[j]) ==> file[i].index != file[j].index
  }

  /** No two lines about the same milestone can be in progress at once. */
  ghost predicate Clear(c: Config, file: seq<Line>) {
    c.parallelism == 1 || Apart(c, file)
  }

  lemma ClearIsNew(c: Config, s: State)
    requires Clear(c, s.file) && Sized(c, s) && |s.inProgress| < c.parallelism
    ensures NextIsNew(c, s)
  {
    NextIsScan(c, s);
    ScanKeepsWork(c, s);
    var u := Scan(c, s);
    if c.parallelism == 1 {
      assert s.inProgress == map[];
    } else if u.pos < |u.file| {
      forall m | m in s.inProgress
        ensures m != u.file[u.pos].index
      {
        var i := LineOf(c, s, m);
      }
    }
  }

  lemma ClearFits(c: Config, sys: System, k: nat)
    requires Good(c, sys) && sys.importer.outcome.Running? && Clear(c, sys.importer.file)
    ensures NextFits(c, sys, k)
  {
    if k < |sys.tokens| && sys.tokens[k].work.ImportedDue? && sys.tokens[k].index in sys.importer.sizes {
      NotedKeepsBooks(c, sys.importer, sys.tokens[k].index);
      ClearIsNew(c, Noted(sys.importer, sys.tokens[k].index));
    }
  }

  lemma FillKeepsGood(c: Config, s: State)
    requires Filling(c, s) && s.inProgress == map[] && !s.eof && Clear(c, s.file)
    ensures var t := Fill(c, s, c.parallelism); Filling(c, t) && (t.eof ==> t.pos == |t.file|)
  {
    var p := (u: State, k: nat) => Filling(c, u) && |u.inProgress| <= k && (u.eof ==> u.pos == |u.file|) && u.file == s.file;
    forall u: State, k: nat | k < c.parallelism && p(u, k)
      ensures u.pos <= |u.file| && p(FillOne(c, u), k + 1)
    {
      ClearIsNew(c, u);
      FillOneKeeps(c, u);
    }
    FillInduction(c, s, c.parallelism, p);
  }

  lemma StartIsGood(c: Config, file: seq<Line>)
    requires c.parallelism > 0 && Clear(c, file)
    ensures Good(c, Begun(c, file))
  {
    EmptyIsGood(c, file);
    FillKeepsGood(c, Empty(file));
    var t := Fill(c, Empty(file), c.parallelism);
    if t.inProgress == map[] && t.eof { DoneKeepsGood(c, t, t.started, []); }
  }

  /** The Importer after it opened the file, with its first workers in flight. */
  function Begun(c: Config, file: seq<Line>): System {
    System(Start(c, file), Start(c, file).started, [])
  }

  /** A run: at each step something happens to some token. */
  function Run(c: Config, sys: System, steps: seq<(nat, bool)>): Option<System>
    decreases |steps|
  {
    if steps == [] then Some(sys)
    else if sys.importer.pos > |sys.importer.file| then None
    else
      match Act(c, sys, steps[0].0, steps[0].1)
      case None => None
      case Some(t) => Run(c, t, steps[1..])
  }

  lemma ActKeepsFile(c: Config, sys: System, k: nat, ok: bool)
    requires sys.importer.pos <= |sys.importer.file|
    ensures var t := Act(c, sys, k, ok); t.Some? ==> t.value.importer.file == sys.importer.file
  {
  }

  lemma {:induction false} RunKeepsGood(c: Config, sys: System, steps: seq<(nat, bool)>)
    requires Good(c, sys) && Clear(c, sys.importer.file)
    ensures var end := Run(c, sys, steps);
            end.Some? && Good(c, end.value) && end.value.importer.file == sys.importer.file
    decreases |steps|
  {
    if steps != [] {
      if sys.importer.outcome.Running? { ClearFits(c, sys, steps[0].0); ActKeepsGood(c, sys, steps[0].0, steps[0].1); }
      ActKeepsFile(c, sys, steps[0].0, steps[0].1);
      RunKeepsGood(c, Act(c, sys, steps[0].0, steps[0].1).value, steps[1..]);
    }
  }

  // ------------------------------------------------------------------------------------------------------------
  // Main results
  // ------------------------------------------------------------------------------------------------------------

  /** After any run, with any order of acknowledgements and failures, every line read was reported skipped or imported or
      is in progress, at most `parallelism` are in progress, all bytes are accounted for, every line to import that is not
      in progress any more is stored, and no event finds its milestone missing. */
  lemma EveryLineIsAccountedFor(c: Config, file: seq<Line>, steps: seq<(nat, bool)>)
    requires c.parallelism > 0 && Clear(c, file)
    ensures var end := Run(c, Begun(c, file), steps);
            && end.Some?
            && var s := end.value.importer;
               && s.file == file && s.pos <= |file|
               && s.pos == |s.reports| + |s.inProgress|
               && |s.inProgress| <= c.parallelism
               && ReportedBytes(s.reports) + HeldBytes(file[..s.pos], s.inProgress.Keys) == FileBytes(file[..s.pos])
               && (forall m: nat :: Times(s.reports, m) + One(m in s.inProgress) == Wants(c, file[..s.pos], m))
               && (forall i :: 0 <= i < s.pos && !Skips(c, file[i]) && !Current(s, i) ==> Stored(c, file[i], end.value.acks))
  {
    StartIsGood(c, file);
    RunKeepsGood(c, Begun(c, file), steps);
  }

  /** Every line to import was imported once and is stored, every other line was not, and all bytes were reported. */
  ghost predicate AllImported(c: Config, file: seq<Line>, reports: seq<Report>, acks: seq<Ack>) {
    && ReportedBytes(reports) == FileBytes(file)
    && (forall m: nat :: Times(reports, m) == Wants(c, file, m))
    && forall i :: 0 <= i < |file| && !Skips(c, file[i]) ==> Stored(c, file[i], acks)
  }

  /** When the Importer ends well, every line in the import range that was not completed before was imported exactly once
      and is stored, no other was, and the whole file was reported. */
  lemma EndMeansAllImported(c: Config, file: seq<Line>, steps: seq<(nat, bool)>)
    requires c.parallelism > 0 && Clear(c, file)
    requires var end := Run(c, Begun(c, file), steps); end.Some? && end.value.importer.outcome.Imported?
    ensures var sys := Run(c, Begun(c, file), steps).value; AllImported(c, file, sys.importer.reports, sys.acks)
  {
    StartIsGood(c, file);
    RunKeepsGood(c, Begun(c, file), steps);
    EndReports(c, Run(c, Begun(c, file), steps).value);
  }

  lemma EndReports(c: Config, sys: System)
    requires Good(c, sys) && sys.importer.outcome.Imported?
    ensures AllImported(c, sys.importer.file, sys.importer.reports, sys.acks)
  {
    var s := sys.importer;
    assert s.file[..|s.file|] == s.file;
    NoKeysNoBytes(s.file);
    forall m: nat
      ensures Times(s.reports, m) == Wants(c, s.file, m)
    {
      BookOf(c, s, m);
    }
  }

  lemma {:induction false} NoKeysNoBytes(lines: seq<Line>)
    ensures HeldBytes(lines, {}) == 0
    decreases |lines|
  {
    if lines != [] {
      NoKeysNoBytes(lines[..|lines| - 1]);
    }
  }
}
