# A verified model of the milestone pipeline of chronicle-broker

The broker collects the milestones of a tangle, stores them and writes them to log files. This project models the
actors that do so, and the range and file algorithms around them, and proves what every run of them keeps.

- The **Syncer** takes ranges of missing milestones from the sync table, keeps a bounded window of solidify requests, and
  hands the answers to the Archiver in order. Each **Solidifier** owns one residue class of milestone indexes and collects
  the cone of messages below each milestone. `SyncerSpec` and `SolidifierSpec` say what their handlers do, on values;
  `SyncerActor` and `SolidifierActor` are the actors with their fields and loops, each method proved to do that.
  `PipelineSpec` joins them by channels, and `Pipeline` and `PipelineAccounts` hold the results about whole runs.
  `SyncerProgress` and `PipelineProgress` show that the Syncer goes on as long as there is work, `SolidifierProgress` and
  `SolidifierDuties` that a Solidifier hands over, asks for and writes all it owes.
- `SyncerHandover` shows that the Syncer hands no milestone over twice as long as the sync table does not call missing what
  the Archiver has got; `SyncerRepeats` gives the exact condition after the bootstrap, and `SecondHandover` a run that fails
  it. `PipelineFiles` puts the Archiver behind the pipeline: its files hold exactly what was handed over.
- The **Collectors** park, close, forward or fetch each ask of a Solidifier, the **Requesters** try the endpoints in turn.
  `CollectorAnswers` says what a Collector owes on every event.
  `AskNet` joins Solidifiers, Collectors and Requesters and shows that no ask is lost; `Loads` shows that the counts of
  unanswered requests are exact; `CollectorTruth` says when a Collector that closes a message tells the truth, and
  `FalseClose` has a run in which it does not.
- The **Archiver** re-orders new milestone data behind a frontier and keeps a set of append-only files
  (`ArchiverSpec`, `ArchiverFiles`, `ArchiverProofs`, `ArchiverActor`); `ArchiverGrowth` says which file a line goes to.
- `SyncTable` and `Analytics` fold the rows of two tables into ranges and blocks; `MergerSpec` and `MergerActor` verify and
  merge log files; `ImporterSpec`, `ImporterProofs` and `ImporterActor` import one log file with bounded parallelism,
  `ImporterWork` shows that it keeps busy within its bounds, `ImporterOrder` in which order the rows of a milestone are
  written, and `ImporterRepeats` for which files every run
  accounts for every line.

The actors are classes whose methods change their fields as the source does. What a method must do is a function of the
state before it, and the results are lemmas about these functions, over every order of events. Channels are bags: any
message may be delivered next, so the results hold for the first-in-first-out channels of the source too. Caches may
forget any entry at any time. Acknowledgements of the database arrive in any order.

## Assumptions

The code relies on these, and they are preconditions here:

- `parallelism` and the number of Solidifiers are at least one, the sync range starts at 1 or above, and rows of the
  sync and analytics tables are strictly descending.
- No milestone is reported unreachable before the bootstrap is over (`SyncerBootstrap.EarlyUnreachable` says what happens
  otherwise), and milestone indexes stay below the end of the last gap of the sync table, i32::MAX.
- A message reaches the Solidifier of its milestone's residue class, and the parents of a message are the same wherever it
  comes from. A fetched message is the one that was asked for.
- Milestone data of the Syncer below the Archiver's frontier are not in a file yet, and a given upper limit lies above the
  index. `PipelineFiles.FilesHoldWhatWasSent` derives this from the sync table: what the table lists as open was not handed
  over and lies below the highest milestone, but for the last gap.
- Files to merge tell the truth in their names. When a file is imported with more than one milestone at a time, no two lines
  to import are about the same one.
- No actor shuts down; building database requests and computing analytics never fail.

## Findings

Properties the code does not have, each with an input and the exact condition.

- A first milestone can be handed over twice (syncer/event_loop.rs:89-122, 294-329). `highest` is the start of the last run
  of first milestones, and the last gap is filled up to it, also over first milestones below a hole. In the run of
  `SecondHandover.WrittenTwice` two Solidifiers see milestones 2 and 5 first, and the sync table lists everything from 1 on
  as missing; milestone 2 is requested again with the gap 1 .. 4 and sent to the Archiver twice. The Archiver looks for the
  index among finished files only where no active file ends at it (archiver/event_loop.rs:187-200), so it lands in two
  files. A milestone is not handed over twice if and only if no first milestone below their last run is open in the sync
  table: the condition `NoneOpen` of `SyncerRepeats.HandedOverOnceIff`.
- A write breaks the tiling of the Archiver's files if and only if the line is written although its index is in a file
  already (`ArchiverProofs.TilingKeptIff`, with an input in `ArchiverProofs.DuplicateOverlaps` and a run that reaches one in
  `SecondHandover.WrittenTwice`).
- A log file with two lines about one milestone can make the Importer fail or lose a line, because the second line replaces
  the first one in its map (importer/event_loop.rs:36-43): `ImporterRepeats.RepeatedMilestoneIsMissed` is an input. It
  happens in some run if and only if `parallelism` is more than one and two lines to import are about the same milestone
  (`ImporterRepeats.AccountsIffClear`).
- A Collector that is asked twice for a parked message by the milestone that references it closes the message for this very
  milestone (collector/event_loop.rs:221-252, the branch for equal indexes). Otherwise every close is true
  (`CollectorTruth.AllClosesTrueIff`). `FalseClose.ClosedWithoutItsParent` is a run in which this happens: a milestone is
  reported unreachable while the ask for a parent of its message is parked, and is requested again. Its data leave without
  this parent.
- Merging files that overlap can leave the overlap in the outputs (merge.rs:664-690): `MergerSpec.OverlapStays` is an input.
  It happens if and only if a line that the active file has already meets the size limit (`MergerSpec.MergingSeparatesIff`).
- A Solidifier hands complete data over at once, but for one case (solidifier/event_loop.rs:507-541): a new milestone that is
  opened by its own message stays if this message has no parent but the genesis, until another event about it comes. That
  this is the only case is `SolidifierProgress.StepLeavesNoneDoneIff`.
- A message whose metadata came before it is persisted but not pushed (collector/event_loop.rs:89-100): its Solidifier gets
  it only when it asks (`CollectorAnswers.LateIsNotPushed`; in the other order it is pushed, `CollectorAnswers.SeenIsPushed`).
- A Syncer that was never told what to work on stops reading its sync table after the first update: it does so if and only
  if it was not told (`SyncerProgress.RereadTakesUp`).
- A milestone reported unreachable during the bootstrap makes the Syncer fail if and only if it is the last reply
  (`SyncerBootstrap.EarlyUnreachable`); otherwise `skip` stays set for the first gap.

## Model

Where a method of an actor has no row, it is proved to do what the function of the same name in the actor's `Spec` module
says; the rows name the methods with loops or recursion and the handlers of the actors' events.

| member | source | states |
|---|---|---|
| `Pipeline.PendingIsExact` | chronicle-broker/src/syncer/event_loop.rs:52-88 | After any run of the Syncer, its Solidifiers and their channels, in any order of delivery, the Syncer's count of outstanding requests equals the requests in flight, inside a Solidifier or answered by a reply in flight, plus the Solidifiers without a first milestone; every request and every first milestone was answered exactly once or is still outstanding; after the bootstrap at most `parallelism` are; and no reply makes the Syncer fail. |
| `Pipeline.ArchiverGetsGapsInOrder` | chronicle-broker/src/syncer/event_loop.rs:86-171 | After any run the Archiver has received the first milestones in order with a close at every hole and at the end; then, for every gap the Syncer announced, in the order of announcement and with the announced bounds, the data of a prefix of the gap, each index once and in increasing order: the whole of a finished gap unless one of its milestones was reported unreachable, closed at its end if anything of it was handed over and the file before, with the same start, was not just closed; and the data up to `next` of the gap in progress. All data the Syncer holds or handed over are whole cones sent by the Solidifier of their residue class. |
| `Pipeline.RequestedAtMostOnce` | chronicle-broker/src/syncer/event_loop.rs:202-265 | After any run: since the Syncer last read the sync table (the run records what it held then and what had been requested and announced) every index was requested at most once, only if it was missing or unlogged in it, and it will not be requested again; the gaps announced are disjoint and consist of such indexes; those of the gap in progress were requested in ascending order without a hole. |
| `PipelineAccounts.NothingIsLost` | chronicle-broker/src/syncer/event_loop.rs:86-171 | After any run, for every index outside the gaps with an unreachable milestone: it was handed over or is buffered in front of the Archiver exactly as often as it was answered, and it was requested, or first observed, exactly as often as it was answered or is outstanding. |
| `PipelineAccounts.RequestsAreAccounted` | chronicle-broker/src/syncer/event_loop.rs:86-171 | The Syncer's half of that: what was requested is outstanding, buffered or handed over since the bootstrap. |
| `PipelineProgress.NeverIdlesWithWork` | chronicle-broker/src/syncer/event_loop.rs:218-293 | After any run, once the bootstrap is over: a Syncer with a gap in progress has outstanding requests, as many as the parallelism and the gap allow unless it skips the gap; and one that was told what to work on and has no gap in progress has noted the end, has scheduled a reading of the sync table, and has nothing missing left in its table below the highest milestone. |
| `SyncerProgress.ReplyProgresses` | chronicle-broker/src/syncer/event_loop.rs:86-171 | Whatever outstanding reply arrives, the window of requests stays full; and if the Syncer goes idle it notes the end and schedules the next reading. |
| `SyncerProgress.AskTakesUp` | chronicle-broker/src/syncer/event_loop.rs:19-40 | An ask to complete the table or to fill its gaps makes an idle Syncer begin on the lowest maximal run of that kind, its first index first, unless nothing of the kind lies below the highest milestone. |
| `SyncerProgress.RereadTakesUp` | chronicle-broker/src/syncer/event_loop.rs:70-85 | Reading the table again makes an idle Syncer that has noted the end begin on the lowest maximal run of the new table, if it was told what to work on; if it was not, it stays idle without having noted the end; a reading that fails is scheduled again. |
| `SyncerProgress.BootTakesUp` | chronicle-broker/src/syncer/event_loop.rs:114-122 | When the bootstrap ends, the Syncer begins on the lowest run of the kind it was told, or notes the end. |
| `SyncerProgress.EarlyAskDecides` | chronicle-broker/src/syncer/event_loop.rs:22-40 | An ask that comes before the bootstrap is over decides what the Syncer begins on. |
| `PipelineFiles.FilesHoldWhatWasSent` | chronicle-broker/src/archiver/event_loop.rs:33-115 | After any run of the pipeline in which the sync table fits what was handed over, and with any new milestone data mixed in, the Archiver has not failed, its files tile what was written, and below the frontier they hold exactly the milestones the Syncer handed over, each in exactly one file, line by line. |
| `PipelineFiles.MergedHolds` | chronicle-broker/src/archiver/event_loop.rs:33-115 | The Archiver's half of that: whatever new data come in between, the files below the frontier hold what the Syncer sent, as often and with the very lines. |
| `SyncerRepeats.HandedOverOnceIff` | chronicle-broker/src/syncer/event_loop.rs:89-122 | After the bootstrap no run of replies makes the Syncer hand a milestone over twice, if and only if no first milestone below the start of their last run is still missing from the sync table (or unlogged, when the table is to be completed and not only its gaps filled). |
| `SyncerRepeats.Reaches` | chronicle-broker/src/syncer/event_loop.rs:202-365 | Whatever the Syncer is going to take up below the highest milestone, answering one index after the other leads it through all gaps before to handing that milestone over. |
| `SecondHandover.WrittenTwice` | chronicle-broker/src/syncer/event_loop.rs:294-329 | An input: Solidifiers 0 and 1 see milestones 2 and 5 first, and nothing from 1 on is in the sync table. The actions of a run from the start are given after which the Archiver has been sent milestone 2 twice, and, taking just these events, holds it in two files. |
| `SecondHandover.NextIsHandedOver` | chronicle-broker/src/syncer/event_loop.rs:123-147 | In this run the answers for the gap 1 .. 4 are handed over one after the other. |
| `SecondHandover.GapIsWritten` | chronicle-broker/src/archiver/event_loop.rs:187-200 | In this run the Archiver writes the gap to a file in front, over the finished file of milestone 2. |
| `SyncerHandover.ReplyKeepsOnce` | chronicle-broker/src/syncer/event_loop.rs:86-171 | Whatever outstanding reply arrives, every milestone has been handed over, or still can be, at most once in all. |
| `SyncerHandover.AskKeepsHandover` | chronicle-broker/src/syncer/event_loop.rs:19-85 | The same for asks, when a sync table that is read again lists nothing as open that was handed over. |
| `SyncerHandover.BootEndOnce` | chronicle-broker/src/syncer/event_loop.rs:89-122 | The bootstrap establishes it when the sync table fits the first milestones. |
| `Pipeline.RunKeepsInv` | chronicle-broker/src/syncer/event_loop.rs:18-63 | The invariant behind both holds after any list of actions: deliveries, requests, replies, asks and caches that forget. |
| `Pipeline.ActKeepsInv` | chronicle-broker/src/syncer/event_loop.rs:18-63 | Whatever happens next, the Syncer can handle it (no underflow, no missing active gap) and the invariant stays. |
| `Pipeline.ReplyKeepsBalance` | chronicle-broker/src/syncer/event_loop.rs:86-147 | An outstanding reply, during the bootstrap, as its last one, or after it, is always accepted and moves exactly its index from outstanding to answered and what is requested on the way to outstanding. |
| `Pipeline.DeliverKeepsInv` | chronicle-broker/src/solidifier/event_loop.rs:479-563 | An event at a Solidifier adds at most its first milestone to what is outstanding. |
| `Pipeline.RequestKeepsInv` | chronicle-broker/src/solidifier/event_loop.rs:174-228 | A solidify request that reaches its Solidifier stays outstanding there or as an answer. |
| `Pipeline.AskKeepsBalance` | chronicle-broker/src/syncer/event_loop.rs:19-48 | An ask adds exactly what it makes the Syncer request. |
| `Pipeline.StepConserves` | chronicle-broker/src/solidifier/event_loop.rs:141-228 | What an event at one Solidifier does to the requests of the whole system, and to the first milestones. |
| `Pipeline.LastFirst` | chronicle-broker/src/syncer/event_loop.rs:86-92 | With the last first milestone the heap holds exactly the first milestones of all Solidifiers, which are distinct. |
| `Tokens.StepBalances` | chronicle-broker/src/solidifier/event_loop.rs:141-305 | Whatever event a Solidifier handles, what it owes the Syncer afterwards plus what it answered is what it owed before plus what the event added; no request is lost or answered twice. |
| `Tokens.SolidifyBalances` | chronicle-broker/src/solidifier/event_loop.rs:174-228 | A solidify request is either owed afterwards or answered as unreachable at once, also when an entry exists already. |
| `Tokens.FailureBalances` | chronicle-broker/src/solidifier/event_loop.rs:141-173 | A failure answers the request it makes impossible. |
| `PipelineSpec.FirstsDistinct` | chronicle-broker/src/solidifier/event_loop.rs:479-505 | First milestones of different Solidifiers differ, because each belongs to another residue class. |
| `SyncerProofs.ReplyKeepsMain` | chronicle-broker/src/syncer/event_loop.rs:86-171 | After the bootstrap, whatever outstanding reply arrives: each requested index of the gap from `next` on is outstanding or buffered exactly once, everything before `next` was handed over in order, skipped gaps have an unreachable index, a finished gap leaves an empty heap, and the log of finished gaps is only extended. |
| `SyncerProofs.ArrivalInOrder` | chronicle-broker/src/syncer/event_loop.rs:123-147 | An arrival requests one more index, hands over everything in order up to the first hole, and moves on when the gap is done; the log of finished gaps is only extended. |
| `SyncerProofs.FlushKeepsProgress` | chronicle-broker/src/syncer/event_loop.rs:126-141 | Handing over from the heap sends consecutive indexes limited by the gap's end and stops at the first hole. |
| `SyncerProofs.NothingLeft` | chronicle-broker/src/syncer/event_loop.rs:123-147 | When nothing is outstanding after a flush the heap is empty and the requested part of the gap is handed over. |
| `SyncerProofs.FinishGap` | chronicle-broker/src/syncer/event_loop.rs:186-201 | A finished gap, with its bounds and what was requested of it, becomes the last segment of the log, closed or not, and the next gap starts with an empty heap. |
| `SyncerProofs.TakeNextStarts` | chronicle-broker/src/syncer/event_loop.rs:294-365 | Taking the next run or gap, through the mutual recursion, ends idle or with the first indexes of a nonempty gap requested. |
| `SyncerProofs.ReplySkips` | chronicle-broker/src/syncer/event_loop.rs:148-171 | While a gap is skipped arrivals are dropped, and with the last one the rest of its range; the log of finished gaps is only extended. |
| `SyncerRequests.ReplyKeepsOrderly` | chronicle-broker/src/syncer/event_loop.rs:202-265 | Whatever reply arrives, every index is requested at most once since the snapshot was read, only if it was open in it, and in ascending order within a gap. |
| `SyncerRequests.AskKeepsOrderly` | chronicle-broker/src/syncer/event_loop.rs:70-85 | The same for asks; reading the sync table again starts a new snapshot. |
| `SyncerRequests.TriggerKeepsOrderly` | chronicle-broker/src/syncer/event_loop.rs:218-293 | The same through the mutually recursive methods, for any number of gaps taken in one call. |
| `SyncerRequests.TakeKeepsOnce` | chronicle-broker/src/syncer/event_loop.rs:294-365 | Taking a gap moves its indexes from open to active, each once; the last gap ends at the highest milestone. |
| `SyncerBootstrap.SendFirstSendsAll` | chronicle-broker/src/syncer/event_loop.rs:89-120 | For any distinct first milestones: exactly their data and a close at every index that follows one of them and is missing, each once and in the only possible order; the frontier sent is the highest index plus one; `highest` is the start of the maximal run ending there. |
| `SyncerBootstrap.ArrivalEndsBoot` | chronicle-broker/src/syncer/event_loop.rs:89-122 | The last first milestone hands over all of them and starts on the first gap if the Syncer was asked to. |
| `SyncerBootstrap.RestIsDue` | chronicle-broker/src/syncer/event_loop.rs:96-120 | The events of the bootstrap are exactly the due ones: all data, and a close wherever a run ends. |
| `SyncerBootstrap.SendRestHighest` | chronicle-broker/src/syncer/event_loop.rs:98-113 | `highest` is moved at every hole and so ends at the start of the last run. |
| `SyncerBootstrap.AskKeepsMain` | chronicle-broker/src/syncer/event_loop.rs:19-85 | An ask is ignored while a gap is in progress; else it starts the next gap, after reading the sync table again if it asks for that. |
| `SyncerBootstrap.EarlyUnreachable` | chronicle-broker/src/syncer/event_loop.rs:52-60 | For every order and kind of the replies during the bootstrap, each handled by the Syncer: it fails (there is no active gap to skip) if and only if the last reply reports a milestone unreachable; else it hands over exactly the collected first milestones and goes on, with `skip` set if any was unreachable. |
| `SyncerFrames.ReplyHolds` | chronicle-broker/src/syncer/event_loop.rs:86-147 | The Syncer never changes or invents milestone data: what it holds or handed over it held before or came with the reply. |
| `SyncerFrames.TriggerKeeps` | chronicle-broker/src/syncer/event_loop.rs:218-365 | Moving on to other gaps leaves the outcome of the bootstrap and all milestone data alone. |
| `SyncerActor.Syncer.HandleAsk` | chronicle-broker/src/syncer/event_loop.rs:19-48 | Asks are accepted only while nothing is active; before the bootstrap they are remembered. |
| `SyncerActor.Syncer.HandleMilestoneData` | chronicle-broker/src/syncer/event_loop.rs:86-147 | One arrival: count it, buffer it, then bootstrap, flush or skip, and move on if nothing is pending. |
| `SyncerActor.Syncer.SendInOrder` | chronicle-broker/src/syncer/event_loop.rs:126-141 | The loop over the heap hands over the data in order and puts the first one that is not back. |
| `SyncerActor.Syncer.HandleUnreachable` | chronicle-broker/src/syncer/event_loop.rs:52-60 | Counts the reply, alerts, skips, and moves on. |
| `SyncerActor.Syncer.SendFirst` | chronicle-broker/src/syncer/event_loop.rs:91-120 | The loop over the first milestone data sends what the bootstrap owes the Archiver. |
| `SyncerActor.Syncer.HandleSkip` | chronicle-broker/src/syncer/event_loop.rs:148-171 | Once nothing is pending both loops run to the end: the heap and the range are used up and `skip` is reset; else `skip` is set. |
| `SyncerActor.Syncer.RequestBatch` | chronicle-broker/src/syncer/event_loop.rs:220-228 | The loop requests `parallelism` indexes, or all that are left and then says so. |
| `SyncerActor.Syncer.ProcessMore` | chronicle-broker/src/syncer/event_loop.rs:218-265 | Requests a batch, or finishes the gap and takes the next, or notes the end; terminates by the ranges left, then the active gap. |
| `SyncerActor.Syncer.TriggerProcessMore` | chronicle-broker/src/syncer/event_loop.rs:287-293 | Moves on once nothing is pending. |
| `SyncerActor.Syncer.DoComplete` | chronicle-broker/src/syncer/event_loop.rs:294-329 | Takes the lowest run of gaps and unlogged ranges; the last one ends at the highest milestone. |
| `SyncerActor.Syncer.DoFillGaps` | chronicle-broker/src/syncer/event_loop.rs:330-365 | Takes the lowest gap; the last one ends at the highest milestone. |
| `SyncTable.SyncData.TryFetch` | chronicle-broker/src/types.rs:329-415 | The loop over all pages yields the fold of all their rows, however they are split. |
| `SyncTable.PagedSyncData.Next` | chronicle-broker/src/types.rs:308-326 | The next row over all pages; empty pages are dropped on the way. |
| `SyncTable.FoldAllDescribesRows` | chronicle-broker/src/types.rs:378-415 | For any strictly descending rows the three lists hold exactly the logged, the unlogged and the missing milestones of the range, each in strictly descending, nonempty, maximal runs. |
| `SyncTable.ListsPartitionRange` | chronicle-broker/src/types.rs:378-415 | The three lists partition the sync range: every index of it is in exactly one of them and no other index in any. |
| `SyncTable.FoldListsRows` | chronicle-broker/src/types.rs:477-517 | After any number of rows the logged and the unlogged list are the maximal runs of these rows. |
| `SyncTable.FoldListsMissing` | chronicle-broker/src/types.rs:487-497 | After any number of rows the gaps are the maximal runs of the missing indexes above them. |
| `SyncTable.DrainIsMaximalRuns` | chronicle-broker/src/types.rs:443-476 | Repeating the take until it finds nothing terminates and yields, in ascending order, exactly the maximal runs of the range minus the logged milestones, for any rows. |
| `SyncTable.DrainTakesAll` | chronicle-broker/src/types.rs:443-476 | The runs taken ascend, never touch and cover exactly what was open. |
| `SyncTable.TakeUncompleteTakesRun` | chronicle-broker/src/types.rs:443-460 | One take removes exactly one maximal run of open indexes; what is left lies strictly above it. |
| `SyncTable.SyncData.TakeLowestUncomplete` | chronicle-broker/src/types.rs:443-460 | The loop merges touching gaps and unlogged ranges from the lowest one on. |
| `Ranges.AscendingIsUnique` | chronicle-broker/src/types.rs:443-476 | The ascending list of maximal runs is determined by the indexes it covers. |
| `SolidifierRuns.RunKeepsGood` | chronicle-broker/src/solidifier/event_loop.rs:24-136 | After any run of events and forgetting caches: every member of the residue class from the first to the next expected milestone had an entry opened for it in turn exactly once and no other index had; unreachable indexes have no entry; all data handed over are whole cones; and every sync row written was due. |
| `SolidifierRuns.NextMovesForward` | chronicle-broker/src/solidifier/event_loop.rs:479-570 | The next expected milestone never decreases and the first one never changes. |
| `SolidifierProgress.RunAccounts` | chronicle-broker/src/solidifier/event_loop.rs:24-136 | Over any run, every entry ever opened for an index is in progress, was given up after a failure, or left complete exactly once, with its analytics to be stored; and with an Archiver each that left was handed over exactly once. |
| `SolidifierProgress.EntrySettles` | chronicle-broker/src/solidifier/event_loop.rs:229-305 | A message or a close changes its entry as stated: the message is kept, the milestone noted, the parents it lacks are awaited. If then nothing is missing the entry leaves as it is, once: to the Syncer if it was the Syncer's, and else to the Archiver if there is one. If something is missing it stays, and nothing is handed over. |
| `SolidifierProgress.StepLeavesNoneDoneIff` | chronicle-broker/src/solidifier/event_loop.rs:507-541 | No complete entry stays, exactly unless a new milestone is opened by its own message and that has no parent but the genesis. |
| `SolidifierProgress.RunLeavesNoneDone` | chronicle-broker/src/solidifier/event_loop.rs:24-136 | The same over every run. |
| `SolidifierProgress.ArrivalEnters` | chronicle-broker/src/solidifier/event_loop.rs:479-567 | Exactly which messages open an entry, and what is in it and in the entries of the milestones passed over. |
| `SolidifierDuties.StoredAsksForMissing` | chronicle-broker/src/solidifier/event_loop.rs:389-440 | A message of an entry makes the Solidifier ask for exactly the parents that the entry neither has nor waits for, each once, in the order of the message, and on behalf of whoever opened the entry. |
| `SolidifierDuties.EnteredAsksForMissing` | chronicle-broker/src/solidifier/event_loop.rs:479-541 | The same for a message that opens an entry; the first milestone itself is asked for as well. |
| `SolidifierDuties.RequestIsTakenIff` | chronicle-broker/src/solidifier/event_loop.rs:174-228 | A request of the Syncer is taken up if and only if its turn has come and at most an empty expected entry is in the way: then the milestone belongs to the Syncer and its message is asked for. Else the request is answered as unreachable at once. |
| `SolidifierDuties.FailureEnds` | chronicle-broker/src/solidifier/event_loop.rs:141-173 | A failure ends the entry and its record, is reported if the Syncer waits for it, and no message opens the index again. |
| `SolidifierProofs.ArrivalOpens` | chronicle-broker/src/solidifier/event_loop.rs:479-570 | A message for a milestone without an entry opens entries for exactly the members of the residue class whose turn comes with it, each of which had none. |
| `SolidifierProofs.IncomingOpens` | chronicle-broker/src/solidifier/event_loop.rs:519-567 | A new milestone opens its own entry and one for every skipped member of the class. |
| `SolidifierProofs.StepKeepsIndexed` | chronicle-broker/src/solidifier/event_loop.rs:24-136 | Entries stay under their index, in the residue class and below the next expected one, and apart from the unreachable indexes. |
| `SolidifierCones.WholeIsTheCone` | chronicle-broker/src/types.rs:174-204 | Data that leave a Solidifier contain every message that a walk along parents from the milestone's own message reaches without passing a closed message or the genesis. |
| `SolidifierCones.StepKeepsCones` | chronicle-broker/src/solidifier/event_loop.rs:229-305 | Whatever event arrives, every parent of a collected message is collected, pending, closed or the genesis, and data leave only when nothing is pending and the milestone's message is there. |
| `SolidifierCones.StoredIsSound` | chronicle-broker/src/solidifier/event_loop.rs:389-420 | Storing a message makes all its missing parents pending. |
| `SolidifierRows.StepAdvances` | chronicle-broker/src/solidifier/event_loop.rs:35-76 | A sync row is written only after the milestone's data left completed, its analytics were acknowledged, and as many distinct messages were persisted for it as the data hold, in whatever order these come in. |
| `SolidifierDuties.RunLeavesNoneFull` | chronicle-broker/src/solidifier/event_loop.rs:35-76 | Over any run no sync row is due and unwritten: a record that has everything never stays. |
| `SolidifierDuties.PersistedIsCounted` | chronicle-broker/src/solidifier/event_loop.rs:35-62 | A stored message is counted; the row is written, once, when with it everything is stored. |
| `SolidifierDuties.AnalyzedIsNoted` | chronicle-broker/src/solidifier/event_loop.rs:66-76 | The same for stored analytics. |
| `SolidifierDuties.EntryCounts` | chronicle-broker/src/solidifier/event_loop.rs:252-305 | When data leave, it is known how many messages they have, and the row is written if all of them are stored already. |
| `SolidifierRows.DueMeansAllPersisted` | chronicle-broker/src/solidifier/mod.rs:64-101 | If the messages counted as persisted for a milestone are among its data, a due row means that every message of it is persisted. |
| `SolidifierActor.Solidifier.HandleEvent` | chronicle-broker/src/solidifier/event_loop.rs:24-136 | One event of the inbox: new state and messages sent. |
| `SolidifierActor.Solidifier.ProcessParents` | chronicle-broker/src/solidifier/event_loop.rs:389-420 | The loop over the parents asks, in order and once each, for exactly those neither stored, pending nor the genesis, and makes them pending. |
| `SolidifierActor.Solidifier.InsertExpected` | chronicle-broker/src/solidifier/event_loop.rs:543-562 | The loop opens an entry for every skipped member of the residue class that has none. |
| `AskNet.NothingIsForgotten` | chronicle-broker/src/collector/event_loop.rs:193-270 | After any run of Solidifiers, Collectors and Requesters, whatever caches forget and requests fail, every message a milestone waits for is asked for, parked, requested, fetched or about to be settled for that milestone. |
| `AskNet.ActKeepsNoOrphan` | chronicle-broker/src/collector/event_loop.rs:28-270 | Every action keeps that. |
| `AskNet.StepKeeps` | chronicle-broker/src/collector/event_loop.rs:30-270 | Whatever a Collector handles, each parked ask stays parked or is passed on, and so is the ask or answer just handled. |
| `AskNet.ParkKeeps` | chronicle-broker/src/collector/event_loop.rs:221-252 | Of two asks for the same message the older milestone's stays parked and the other one is closed. |
| `AskNet.ReferenceKeeps` | chronicle-broker/src/collector/event_loop.rs:101-192 | New metadata settle the parked ask for their message and release the asks of older milestones; no other ask is lost. |
| `AskNet.ReleaseKeeps` | chronicle-broker/src/collector/event_loop.rs:308-320 | Processing the parked asks requests or keeps each of them. |
| `AskNet.SettledIsNotPending` | chronicle-broker/src/solidifier/event_loop.rs:229-251 | A message, a close or a failure that reaches its Solidifier ends the waiting. |
| `AskNet.NewPendingIsAsked` | chronicle-broker/src/solidifier/event_loop.rs:389-440 | Whatever a Solidifier newly waits for, it asks for. |
| `CollectorTruth.AllClosesTrueIff` | chronicle-broker/src/collector/event_loop.rs:195-255 | Over any run with genuine metadata, whatever the caches forget: every message is closed only for milestones that do not reference it, if and only if no milestone asks again for a message it references while its first ask is parked. |
| `CollectorTruth.ClosesAreTrueIff` | chronicle-broker/src/collector/event_loop.rs:218-245 | The same for one event, with the exact case that fails: the parked ask and the new one are of the same milestone. |
| `FalseClose.ClosedWithoutItsParent` | chronicle-broker/src/collector/event_loop.rs:221-252 | An input: the actions of a run of two Solidifiers, Collectors and Requesters from the start that reaches a second ask of milestone 2 for a parked message that it references. The Collector closes the message for milestone 2, the data of the milestone leave without this parent of the milestone's message, and the message is dropped when its metadata come. |
| `FalseClose.SyncerRequestsIt` | chronicle-broker/src/syncer/event_loop.rs:52-60 | The second request in this run is one the Syncer sends: with milestone 2 reported unreachable and 3 collected as the first milestones it requests 1 and 2. |
| `FalseClose.FailureEnds` | chronicle-broker/src/solidifier/event_loop.rs:141-173 | In this run the Solidifier reports its first milestone unreachable. |
| `CollectorTruth.StepStaysHonest` | chronicle-broker/src/collector/event_loop.rs:28-270 | The metadata kept stay right, and messages stay parked only for milestones at or after the one that references them. |
| `CollectorTruth.PersistedBelongs` | chronicle-broker/src/collector/event_loop.rs:593-628 | A message is counted as persisted only for the milestone that references it. |
| `CollectorAnswers.KnownMessageIsPersisted` | chronicle-broker/src/collector/event_loop.rs:28-192 | Over any run: a message that was seen and whose metadata came, in whatever order and with whatever in between, is persisted for the milestone that references it, unless the caches forget it. |
| `CollectorAnswers.PushingPersists` | chronicle-broker/src/collector/event_loop.rs:30-262 | Every message that is pushed is persisted with the same event, unless a Solidifier asked for it on behalf of new data; and it goes to the Solidifier of its milestone, or to the one that asked. |
| `CollectorAnswers.SeenIsPushed` | chronicle-broker/src/collector/event_loop.rs:116-150 | A message that was seen before its metadata came is pushed to the Solidifier of the milestone that references it. |
| `CollectorAnswers.LateIsNotPushed` | chronicle-broker/src/collector/event_loop.rs:89-100 | A message whose metadata came before it is persisted, but not pushed. |
| `CollectorAnswers.CleansUpIff` | chronicle-broker/src/collector/event_loop.rs:59-76 | Rows written under an estimate are cleaned up exactly when the metadata show that the estimate was wrong. |
| `CollectorAnswers.PersistsUnderLatest` | chronicle-broker/src/collector/event_loop.rs:593-628 | Rows are written under the milestone heard of last, but for a message of the feed whose metadata came before it. |
| `CollectorAnswers.LatestReference` | chronicle-broker/src/collector/event_loop.rs:30-262 | Which milestone was heard of last, for every event: the one of an answer, of metadata that refer to one, or of an ask of the Syncer that is answered at once; no other event changes it. |
| `CollectorAnswers.EstimateGrows` | chronicle-broker/src/collector/event_loop.rs:102-115 | The estimate for new messages never falls and is beyond every milestone that the feed referred to. |
| `CollectorAnswers.FetchedIsKept` | chronicle-broker/src/collector/event_loop.rs:30-88 | An answer of a Requester is remembered and persisted whatever it was fetched for, and goes to the Solidifier that waits or is closed for it; a failure is reported. |
| `CollectorAnswers.MetadataRelease` | chronicle-broker/src/collector/event_loop.rs:308-320 | New metadata release exactly the parked asks of older milestones: each is requested, the others stay. |
| `CollectorAnswers.AskIsAnswered` | chronicle-broker/src/collector/event_loop.rs:193-262 | An ask is answered at once, waits for the feed, or is requested once: which, and with what, in every case. |
| `CollectorAnswers.WaitingIsParked` | chronicle-broker/src/collector/event_loop.rs:221-252 | Of two milestones that wait for the same message the older one stays parked and the other one is closed. |
| `CollectorAnswers.MilestoneAskIsForwarded` | chronicle-broker/src/collector/event_loop.rs:265-268 | An ask for a milestone's message is forwarded to one Requester, once. |
| `CollectorSpec.PersistsUnderReference` | chronicle-broker/src/collector/event_loop.rs:593-628 | A message with metadata is stored and counted under the milestone its metadata name. |
| `CollectorSpec.Least` | chronicle-broker/src/requester/mod.rs:72-83 | A Requester with the fewest unanswered requests. |
| `Loads.CountsAreExact` | chronicle-broker/src/collector/event_loop.rs:327-353 | After any run a Collector's count for a Requester is the number of its unanswered requests, so it never underflows, and the next request goes to a Requester with the fewest. |
| `Loads.StepMoves` | chronicle-broker/src/collector/event_loop.rs:30-270 | Every event moves the counts by exactly the requests sent and the answer received. |
| `CollectorActor.Collector.HandleEvent` | chronicle-broker/src/collector/event_loop.rs:28-270 | One event of the inbox: new state and messages sent. |
| `CollectorActor.Collector.ProcessPendingRequests` | chronicle-broker/src/collector/event_loop.rs:308-320 | The loop requests the parked asks of older milestones and keeps the others. |
| `CollectorActor.Collector.AdjustHeap` | chronicle-broker/src/collector/event_loop.rs:340-353 | The loop takes one from the count of the Requester that answered. |
| `RequesterActor.TryIsFirstSuccess` | chronicle-broker/src/requester/event_loop.rs:55-120 | The endpoints are asked in turn; the answer is that of the first attempt that succeeds, whose endpoint stays in front; there is none exactly when all attempts fail or there is no endpoint; no endpoint is lost. |
| `RequesterActor.Requester.RequestWithRetries` | chronicle-broker/src/requester/event_loop.rs:55-120 | The retry loop terminates with exactly one response, for this request, and the same multiset of endpoints. |
| `ArchiverProofs.FilesTile` | chronicle-broker/src/archiver/event_loop.rs:33-268 | After any run of admissible events the Archiver has not failed. What it wrote is exactly what the buffer alone lets through (`RunTurn`): each such line is in the files once and no other line is; every index written lies in exactly one file and no other index in any; active files are sorted with `from < to < upper <= next from`, hold their lines in order and are below the size limit unless they have one line; buffer and frontier are those of `RunTurn`; and all data that came in were written, dropped below the frontier, or are still buffered. |
| `ArchiverProofs.StepKeepsGood` | chronicle-broker/src/archiver/event_loop.rs:33-115 | Every admissible event keeps that and writes exactly the lines of its turn: data of the Syncer at or below the frontier at once, new data as far as they are in turn; the frontier never moves back. |
| `ArchiverProofs.TurnConserves` | chronicle-broker/src/archiver/event_loop.rs:33-115 | All data that arrive are written, dropped or still buffered, each exactly once, for any events. |
| `ArchiverProofs.TurnMovesOn` | chronicle-broker/src/archiver/event_loop.rs:52-86 | The frontier never moves back, and whatever was written or dropped lies below it. |
| `ArchiverProofs.AcceptedIsWritten` | chronicle-broker/src/archiver/event_loop.rs:91-113 | Data of the Syncer that are not above the frontier when they arrive are among the lines written, at any place of any run. |
| `ArchiverProofs.DrainWritesInTurn` | chronicle-broker/src/archiver/event_loop.rs:52-86 | Buffered data are written in strictly increasing order from the frontier on; a hole is jumped only when more than `solidifiers_count` data remain; what stays behind waits for a hole. |
| `ArchiverProofs.TilingKeptIff` | chronicle-broker/src/archiver/event_loop.rs:135-211 | A write keeps the tiling if and only if it does not write an index that some file already has. |
| `ArchiverProofs.DuplicateOverlaps` | chronicle-broker/src/archiver/event_loop.rs:187-200 | An index inside an active file is written again: the processed ranges are consulted, the active ones are not. |
| `ArchiverProofs.HandleDataTiles` | chronicle-broker/src/archiver/event_loop.rs:135-211 | Writing an index for the first time succeeds and tiles exactly one index more. |
| `ArchiverProofs.HandleDataCopies` | chronicle-broker/src/archiver/event_loop.rs:135-211 | A written line is in the files once more than before, and no other line is touched. |
| `ArchiverProofs.WriteKeeps` | chronicle-broker/src/archiver/event_loop.rs:153-185 | Lines are in order, the length is theirs, and only a file with one line may reach the limit. |
| `ArchiverFiles.HandleDataOrders` | chronicle-broker/src/archiver/event_loop.rs:135-258 | A write always finds the files it has to take out, and leaves the active files in order. |
| `ArchiverFiles.CleanUpOrders` | chronicle-broker/src/archiver/event_loop.rs:201-209 | Every finished file is found among the active ones and taken out, once. |
| `ArchiverFiles.CreateWaits` | chronicle-broker/src/archiver/event_loop.rs:212-258 | A new file fits between its neighbours: limits are lowered, and exactly the files that reach theirs are finished. |
| `ArchiverGrowth.LineIsAppended` | chronicle-broker/src/archiver/event_loop.rs:144-164 | A line that continues a file with room for it is appended to this file and nothing else changes; the file is finished when it reaches its limit. |
| `ArchiverGrowth.FullIsFollowed` | chronicle-broker/src/archiver/event_loop.rs:165-188 | A line for which its file has no room finishes the file as it is and begins a new one in its place, up to the same limit. |
| `ArchiverGrowth.LineBeginsFile` | chronicle-broker/src/archiver/event_loop.rs:212-258 | A line that no file waits for begins a new file exactly between its neighbours, up to its limit or the next file; the files in front may not grow beyond it. |
| `ArchiverGrowth.KnownIsDropped` | chronicle-broker/src/archiver/event_loop.rs:189-200 | A line whose index lies in a finished file is dropped, unless an active file waits for it. |
| `ArchiverGrowth.SyncerDataBegins` | chronicle-broker/src/archiver/event_loop.rs:90-113 | Data of the Syncer begin a file up to the limit they come with below the frontier, and without a limit at the frontier, which they move. |
| `ArchiverGrowth.CloseFinishes` | chronicle-broker/src/archiver/event_loop.rs:121-134 | Closing below the frontier finishes the file that ends at the index, as it is, and no other; beyond the frontier it does nothing. |
| `ArchiverGrowth.JumpFinishes` | chronicle-broker/src/archiver/event_loop.rs:63-85 | When the buffer jumps a hole, the file that ends in front of it is finished. |
| `ArchiverGrowth.StepKeepsDisk` | chronicle-broker/src/archiver/event_loop.rs:33-115 | Whatever the event, finished files stay as they are. |
| `ArchiverActor.Archiver.HandleEvent` | chronicle-broker/src/archiver/event_loop.rs:33-115 | One event of the inbox: the files, the buffer and the frontier afterwards. |
| `ArchiverActor.Archiver.DrainIncoming` | chronicle-broker/src/archiver/event_loop.rs:52-86 | The loop over the buffer. |
| `ArchiverActor.Archiver.RemoveFinished` | chronicle-broker/src/archiver/event_loop.rs:201-209 | The loop over the finished files. |
| `ArchiverActor.Archiver.LowerLimits` | chronicle-broker/src/archiver/event_loop.rs:238-256 | The loop from right to left lowers limits and finishes files that have reached theirs. |
| `Analytics.PagesDescribeRows` | chronicle-broker/src/types.rs:611-655 | However the rows are split into pages the blocks are the same: the maximal descending runs of all rows, each with its length the number of its rows and the sums of their counts. |
| `Analytics.FoldDescribes` | chronicle-broker/src/types.rs:581-606 | One fold over all rows yields exactly their maximal runs with their totals. |
| `Analytics.FoldConserves` | chronicle-broker/src/types.rs:601-606 | Rows, messages, transactions and tokens are conserved by the fold, whatever rows come. |
| `Analytics.FoldConcat` | chronicle-broker/src/types.rs:641-655 | Folding on is folding the concatenation. |
| `Analytics.AnalyticsData.TryFetch` | chronicle-broker/src/types.rs:611-640 | The loop over the pages yields the fold of all rows. |
| `Analytics.AnalyticsData.ProcessAll` | chronicle-broker/src/types.rs:581-586 | The loop over the other rows of a page. |
| `MergerSpec.MergingLosesNothing` | chronicle-broker/src/merge.rs:506-574 | Merging truthful files sorted by their start, whatever their overlaps, yields truthful files with exactly the same milestones. |
| `MergerSpec.MergingSeparatesIff` | chronicle-broker/src/merge.rs:651-690 | The outputs are in order and disjoint, so that no milestone is in two of them, if and only if no line that the active file has already meets the size limit. |
| `MergerSpec.MergingLeavesApart` | chronicle-broker/src/merge.rs:506-690 | Two outputs that follow each other are apart only because of a gap between them or because the first line of the second would make the first reach the size limit; exactly in the second case the first is finalized. |
| `MergerSpec.FittingBecomesOne` | chronicle-broker/src/merge.rs:539-574 | Inputs without a gap that fit together become one file. |
| `MergerSpec.OverlapStays` | chronicle-broker/src/merge.rs:664-690 | An input: files 1 .. 3 and 2 .. 4 with lines of ten bytes and a limit of 35 stay as they are. |
| `MergerSpec.MergingKeepsLines` | chronicle-broker/src/merge.rs:506-574 | If the inputs do not overlap, the concatenated lines of the outputs are those of the inputs. |
| `MergerSpec.MergingBoundsFiles` | chronicle-broker/src/merge.rs:642-690 | Every output is below the size limit, has one line or is an input nothing was appended to; and all its lines are lines of the inputs. |
| `MergerSpec.MergeFromKeeps` | chronicle-broker/src/merge.rs:609-703 | Consuming one file adds exactly its milestones, wherever the active file ends and however often it is replaced. |
| `MergerActor.LogFile.Verify` | chronicle-broker/src/merge.rs:189-289 | Full verification accepts exactly the nonempty files whose line `i` is milestone `start + i`, with no more lines than the name claims, and then sets the end. |
| `MergerActor.Merger.Merge` | chronicle-broker/src/merge.rs:586-726 | The loop over the lines of one file. |
| `MergerActor.Merger.Cleanup` | chronicle-broker/src/merge.rs:485-584 | The loop over all files. |
| `ImporterProofs.EveryLineIsAccountedFor` | chronicle-broker/src/importer/event_loop.rs:33-136 | After any run, with any order of acknowledgements and failures, for a file whose lines about the same milestone cannot be in progress at once: lines read are skipped, imported or in progress, at most `parallelism` are in progress, their bytes add up, every line to import was reported once or is in progress, and those no longer in progress are stored. |
| `ImporterProofs.EndMeansAllImported` | chronicle-broker/src/importer/event_loop.rs:66-79 | When the Importer ends well, every line in range and not completed before was imported exactly once and is stored, no other was, and all bytes were reported. |
| `ImporterOrder.SyncRowComesLast` | chronicle-broker/src/importer/mod.rs:489-507 | In any run, for a file whose lines about the same milestone cannot be in progress at once: when a sync row of a milestone is acknowledged with `n` of them before it, more than `n` analytics rows of the milestone were acknowledged before, and so were all messages of the line to import about it that has `n` others before it. |
| `ImporterOrder.TurnIsUnique` | chronicle-broker/src/importer/mod.rs:489-507 | There is only one such line. |
| `ImporterOrder.ActKeepsTurns` | chronicle-broker/src/importer/event_loop.rs:33-136 | Every event keeps the counts behind this: the rows of a milestone were acknowledged as often as it was reported imported, and once more as far as the one in progress is. |
| `ImporterWork.BatchesAreBounded` | chronicle-broker/src/importer/init.rs:138-160 | In any run of any file at most as many messages of a milestone are being inserted at once as the parallelism allows; in Analytics mode none is, and nothing but analytics rows is written. |
| `ImporterWork.NeverHangs` | chronicle-broker/src/importer/event_loop.rs:33-136 | In any run, for a file whose lines about the same milestone cannot be in progress at once: while the Importer runs, as many milestones are in progress as the parallelism allows unless the file has been read, something is going on for one of them, and the analytics row of a milestone is written only after all its messages. |
| `ImporterWork.MoreBegins` | chronicle-broker/src/importer/event_loop.rs:88-129 | Going on with a milestone begins its next messages in order, as many as the parallelism allows, and its analytics row only when none are left. |
| `ImporterWork.NextLineBegins` | chronicle-broker/src/importer/init.rs:70-136 | The next line begun is the first one in the import range and in no completed range; all before it are reported as skipped, and its first batch is begun. |
| `ImporterRepeats.AccountsIffClear` | chronicle-broker/src/importer/event_loop.rs:33-136 | In every run every event finds its milestone and every line read is accounted for, if and only if only one milestone is imported at a time or no two lines to import are about the same milestone. |
| `ImporterRepeats.LeadsToLoss` | chronicle-broker/src/importer/event_loop.rs:36-80 | With two milestones in progress and a repetition ahead, acknowledgements can always be ordered so that the repeated line is read while the first one is in progress, and is lost. |
| `ImporterRepeats.StartNextLoses` | chronicle-broker/src/importer/init.rs:103-106 | Starting on a line loses one line of the count exactly when its milestone is in progress already. |
| `ImporterRepeats.RepeatedMilestoneIsMissed` | chronicle-broker/src/importer/event_loop.rs:36-43 | An input: two lines about one milestone and one more, two at a time in Analytics mode; the second import noted finds its milestone missing. |
| `ImporterProofs.ActKeepsGood` | chronicle-broker/src/importer/event_loop.rs:33-136 | No event finds its milestone missing, and the books stay balanced. |
| `ImporterProofs.StartNextKeepsGood` | chronicle-broker/src/importer/init.rs:70-117 | Starting on the next line keeps the books and gives the milestone exactly one thing to wait for. |
| `ImporterProofs.NotedKeepsBooks` | chronicle-broker/src/importer/event_loop.rs:38-57 | An imported milestone moves from progress to the reports with the bytes of its line. |
| `ImporterActor.Importer.InitImporting` | chronicle-broker/src/importer/init.rs:59-69 | The loop starts on up to `parallelism` milestones and notes the end of the file. |
| `ImporterActor.Importer.NextMilestoneData` | chronicle-broker/src/importer/init.rs:70-117 | The loop reports skipped lines and returns the first one to import. |
| `ImporterActor.Importer.InsertSomeMessages` | chronicle-broker/src/importer/init.rs:138-160 | The loop inserts up to `parallelism` messages and leaves the others. |
| `ImporterActor.Importer.HandleImported` | chronicle-broker/src/importer/event_loop.rs:36-80 | Reports the milestone, starts on the next one, or ends. |
| `ImporterActor.Importer.HandleProcessMore` | chronicle-broker/src/importer/event_loop.rs:88-129 | Goes on with the messages left, or with the analytics and sync rows. |

## Left out

- Network, file system, encodings and the database: only what is sent, acknowledged or failed, and the lengths of lines,
  appear.
- Order within channels: a channel is a bag, which allows more runs than the source's queues.
- Ties in binary heaps: data with equal index leave the heap in the order in which they came; requesters with equal load
  are taken by position.
- Capacities of the caches: a cache may forget at any time, so how much it holds does not matter.
- Milestone data and the Archiver's log files are values in a map or a sequence that the methods reassign, so updates in
  place of one entry through a reference are not captured.
- The hash maps of the Collector and of milestone data are read in one fixed order where the source reads them in any.
- The inserted rows of a message (parents, indexes, transactions, addresses) and the milestone message a Collector sends
  along with them; milestone messages reach a Solidifier as events from outside.
- The check of a milestone's parents against its payload, and milestone messages without metadata.
- Retries of database workers; a failed acknowledgement is not delivered to a Solidifier, and it ends an import.
- Widths of integers: indexes and counts are unbounded, but for the two limits named above; the count of unanswered
  requests is an integer that is shown never to be negative.
- Shutdown, restart, timers and progress under fairness: only what no run violates is stated.
- The Merger on files that fail validation or on input errors, its validation while merging, names and renames of files,
  and backups; Light verification, which differs from Full only in what a line may parse to.
- MergerActor.Merger.Merge: takes a truthful file, so the checks of single lines that the source makes while merging, which
  such a file passes, are not part of the loop.
- ImporterActor.Importer.NextMilestoneData: the scan budget that lets other work run in between is not modelled.
- RequesterActor.Requester.AddEndpoint: the shuffle is a parameter that may be any permutation.
- SolidifierRows.DueMeansAllPersisted: takes as given that the messages counted for a milestone are among its data.
  `CollectorTruth.PersistedBelongs` shows that they reference it; that the data of a completed milestone are all messages
  that reference it depends on the network and is not derived.
- SyncerRepeats.HandedOverOnceIff: is about runs of replies; for asks and for reading the sync table again only the
  sufficient condition is proved (`SyncerHandover.AskKeepsHandover`).
- The filtered pages of the API, whose behaviour across pages depends on paging states of the database.
- Supervision, configuration, metrics, alerts other than unreachable milestones, the command line and progress bars.
