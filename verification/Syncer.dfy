/** The Syncer actor. Each handler is proved to do what `SyncerSpec` says. */
module SyncerActor {
  import opened Types
  import opened Ranges
  import opened SyncTable
  import Spec = SyncerSpec

  class Syncer {
    const config: Spec.Config
    var syncData: SyncData
    var active: Option<Spec.Active>
    var firstAsk: Option<Spec.Ask>
    /** The min-heap, listed in the order in which it is popped. */
    var milestonesData: seq<MilestoneData>
    var highest: nat
    var pending: nat
    var eof: bool
    var next: nat
    var skip: bool
    var initialGapStart: nat
    var initialGapEnd: nat
    var prevClosedLogFilename: nat
    /** What was sent on the oneshot channel to the Archiver. */
    var frontier: Option<nat>
    /** Everything done so far: solidify requests, gaps announced, Archiver events, alerts, scheduled updates. */
    var requested: seq<nat>
    var taken: seq<Range>
    var archived: seq<ArchiverEvent>
    var alerts: seq<nat>
    var scheduled: nat

    ghost function View(): Spec.State
      reads this, syncData
    {
      Spec.State(syncData.View(), active, firstAsk, milestonesData, highest, pending, eof, skip,
                 Spec.Gap(initialGapStart, initialGapEnd, next, prevClosedLogFilename),
                 Spec.Sent(requested, taken, archived, alerts, frontier, scheduled))
    }

    constructor (syncData: SyncData, firstAsk: Option<Spec.Ask>, solidifierCount: nat, config: Spec.Config)
      ensures this.config == config && this.syncData == syncData
      ensures View() == Spec.Init(syncData.View(), firstAsk, solidifierCount)
    {
      this.config := config;
      this.syncData := syncData;
      active := None;
      this.firstAsk := firstAsk;
      milestonesData := [];
      highest := 0;
      pending := solidifierCount;
      eof := false;
      next := 0;
      skip := false;
      initialGapStart, initialGapEnd := 0, 0;
      prevClosedLogFilename := 0;
      frontier := None;
      requested, taken, archived, alerts, scheduled := [], [], [], [], 0;
    }

    // ----------------------------------------------------------------------------------------------------------
    // Events
    // ----------------------------------------------------------------------------------------------------------

    /** An ask is only accepted while nothing is in progress. */
    method HandleAsk(ask: Spec.Ask, fetched: Option<SyncData>)
      modifies this, syncData, if fetched.Some? then {fetched.value} else {}
      ensures syncData == old(syncData) || (fetched.Some? && syncData == fetched.value)
      ensures View() == Spec.HandleAsk(config, old(View()), ask, if fetched.Some? then Some(old(fetched.value.View())) else None)
    {
      if active.None? {
        match ask
        case AskComplete =>
          if highest != 0 {
            DoComplete();
          } else {
            firstAsk := Some(ask);
          }
        case AskFillGaps =>
          if highest != 0 {
            DoFillGaps();
          } else {
            firstAsk := Some(ask);
          }
        case AskUpdateSyncData =>
          UpdateSync(fetched);
      }
    }

    /** Reads the sync table again; `fetched` is what it returns, if it answers. */
    method UpdateSync(fetched: Option<SyncData>)
      requires active.None?
      modifies this, syncData, if fetched.Some? then {fetched.value} else {}
      ensures syncData == old(syncData) || (fetched.Some? && syncData == fetched.value)
      ensures View() == Spec.UpdateSync(config, old(View()), if fetched.Some? then Some(old(fetched.value.View())) else None)
    {
      if eof && config.ranged {
        if fetched.Some? {
          syncData := fetched.value;
          eof := false;
          CompleteOrFillGaps();
        } else {
          ScheduleUpdateSyncData();
        }
      }
    }

    method HandleMilestoneData(data: MilestoneData)
      requires Spec.AcceptsReply(View())
      modifies this, syncData
      ensures syncData == old(syncData)
      ensures View() == Spec.HandleMilestoneData(config, old(View()), data)
    {
      pending := pending - 1;
      milestonesData := Spec.Push(milestonesData, data);
      Receive();
      TriggerProcessMore();
    }

    method Receive()
      requires highest == 0 ==> active.None? && milestonesData != []
      requires highest != 0 ==> active.Some?
      modifies this, syncData
      ensures syncData == old(syncData)
      ensures View() == Spec.Receive(config, old(View()))
    {
      if highest == 0 && pending == 0 {
        SendFirst();
        CompleteOrFillGaps();
      } else if highest != 0 && !skip {
        var _ := TrySolidifyOneMore();
        SendInOrder();
      } else if skip {
        HandleSkip();
      }
    }

    /** Hands over what the heap holds from `next` on, up to the first hole. */
    method SendInOrder()
      modifies this`milestonesData, this`next, this`archived
      ensures View() == Spec.Flush(config, old(View()))
    {
      while milestonesData != []
        invariant Spec.Flush(config, View()) == Spec.Flush(config, old(View()))
        decreases |milestonesData|
      {
        var msData := milestonesData[0];
        milestonesData := milestonesData[1..];
        if next == msData.index {
          TrySendToArchiver(Data(msData, Some(initialGapEnd)));
          next := next + 1;
        } else {
          milestonesData := [msData] + milestonesData;
          break;
        }
      }
    }

    method HandleUnreachable(index: nat)
      requires Spec.AcceptsUnreachable(View())
      modifies this, syncData
      ensures syncData == old(syncData)
      ensures View() == Spec.HandleUnreachable(config, old(View()), index)
    {
      pending := pending - 1;
      alerts := alerts + [index];
      HandleSkip();
      TriggerProcessMore();
    }

    // ----------------------------------------------------------------------------------------------------------
    // Bootstrap
    // ----------------------------------------------------------------------------------------------------------

    /** Hands the first milestone data of all Solidifiers to the Archiver, and the frontier with them. */
    method SendFirst()
      requires milestonesData != []
      modifies this`milestonesData, this`highest, this`archived, this`frontier
      ensures View() == Spec.SendFirst(config, old(View()))
    {
      highest := milestonesData[0].index;
      var nextIndex := SendNext(highest);
      while milestonesData != []
        invariant Spec.SendRest(config, View(), nextIndex) == Spec.SendFirst(config, old(View()))
        decreases |milestonesData|
      {
        nextIndex := SendNext(nextIndex);
      }
      SendFrontier(nextIndex);
    }

    method SendFrontier(nextIndex: nat)
      requires milestonesData == []
      modifies this`archived, this`frontier
      ensures View() == Spec.SendRest(config, old(View()), nextIndex)
    {
      frontier := Some(nextIndex);
      TrySendToArchiver(Close(nextIndex));
    }

    /** Hands over the next of the first milestone data, after closing the file if it leaves a hole. */
    method SendNext(expected: nat) returns (nextIndex: nat)
      requires milestonesData != []
      modifies this`milestonesData, this`highest, this`archived
      ensures milestonesData == old(milestonesData)[1..]
      ensures Spec.SendRest(config, View(), nextIndex) == Spec.SendRest(config, old(View()), expected)
    {
      var msData := milestonesData[0];
      milestonesData := milestonesData[1..];
      if expected != msData.index {
        TrySendToArchiver(Close(expected));
        highest := msData.index;
      }
      nextIndex := msData.index + 1;
      TrySendToArchiver(Data(msData, None));
      assert View() == old(View()).(heap := milestonesData, highest := highest, sent := View().sent);
    }

    method CompleteOrFillGaps()
      requires active.None?
      modifies this, syncData
      ensures syncData == old(syncData)
      ensures View() == Spec.CompleteOrFillGaps(config, old(View()))
    {
      if firstAsk == Some(Spec.AskComplete) {
        DoComplete();
      } else if firstAsk == Some(Spec.AskFillGaps) {
        DoFillGaps();
      }
    }

    // ----------------------------------------------------------------------------------------------------------
    // The active gap
    // ----------------------------------------------------------------------------------------------------------

    method HandleSkip()
      requires pending == 0 ==> active.Some?
      modifies this
      ensures syncData == old(syncData)
      ensures View() == Spec.HandleSkip(old(View()))
    {
      skip := true;
      if pending == 0 {
        while milestonesData != []
          invariant syncData == old(syncData) && active == old(active) && skip
          invariant View() == old(View()).(heap := milestonesData, skip := true)
          decreases |milestonesData|
        {
          milestonesData := milestonesData[1..];
        }
        while active.value.range.start < active.value.range.end
          invariant syncData == old(syncData) && active.Some?
          invariant Spec.Exhausted(active.value) == Spec.Exhausted(old(active.value))
          invariant View() == old(View()).(heap := [], skip := true, active := active)
          decreases Spec.Remaining(active.value)
        {
          var _ := NextIndex();
        }
        skip := false;
      }
    }

    /** The next index of the active range, which it leaves. */
    method NextIndex() returns (index: Option<nat>)
      requires active.Some?
      modifies this`active
      ensures var a := old(active.value);
              if a.range.start < a.range.end
              then index == Some(a.range.start) && active == Some(a.(range := Range(a.range.start + 1, a.range.end)))
              else index == None && active == old(active)
    {
      var a := active.value;
      if a.range.start < a.range.end {
        index := Some(a.range.start);
        active := Some(a.(range := Range(a.range.start + 1, a.range.end)));
      } else {
        index := None;
      }
    }

    method RequestSolidify(index: nat)
      modifies this`requested
      ensures requested == old(requested) + [index]
    {
      requested := requested + [index];
    }

    /** Requests the next index of the active range, if it has one. */
    method TrySolidifyOneMore() returns (more: bool)
      requires active.Some?
      modifies this`active, this`requested, this`pending
      ensures View() == Spec.RequestFromActive(old(View()), 1)
      ensures more <==> Spec.Remaining(old(active.value)) > 0
    {
      var index := NextIndex();
      more := index.Some?;
      if more {
        RequestSolidify(index.value);
        pending := pending + 1;
      }
    }

    method TrySendToArchiver(e: ArchiverEvent)
      modifies this`archived
      ensures View() == Spec.Archive(config, old(View()), e)
    {
      if config.archiving {
        archived := archived + [e];
      }
    }

    method CloseLogFile()
      modifies this`archived, this`prevClosedLogFilename
      ensures View() == Spec.CloseLogFile(config, old(View()))
    {
      var createdLogFile := initialGapStart != next;
      if prevClosedLogFilename != initialGapStart && createdLogFile {
        TrySendToArchiver(Close(next));
        prevClosedLogFilename := initialGapStart;
      } else {
        prevClosedLogFilename := 0;
      }
    }

    method ScheduleUpdateSyncData()
      modifies this`scheduled
      ensures View() == Spec.Schedule(old(View()))
    {
      scheduled := scheduled + 1;
    }

    // ----------------------------------------------------------------------------------------------------------
    // Moving on: four methods that call each other
    // ----------------------------------------------------------------------------------------------------------

    method TriggerProcessMore()
      modifies this, syncData
      ensures syncData == old(syncData)
      ensures View() == Spec.TriggerProcessMore(config, old(View()))
      decreases syncData.View().Size(), if active.Some? then 1 else 0, 1
    {
      if pending == 0 {
        ProcessMore();
      }
    }

    method ProcessMore()
      modifies this, syncData
      ensures syncData == old(syncData)
      ensures View() == Spec.ProcessMore(config, old(View()))
      decreases syncData.View().Size(), if active.Some? then 1 else 0, 0
    {
      if active.Some? {
        var exhausted := RequestBatch();
        if exhausted && pending == 0 {
          CloseLogFile();
          var complete := active.value.Complete?;
          active := None;
          if complete {
            DoComplete();
          } else {
            DoFillGaps();
          }
        }
      } else {
        eof := true;
        ScheduleUpdateSyncData();
      }
    }

    /** Requests up to `parallelism` indexes of the active range; `exhausted` when it had fewer. */
    method RequestBatch() returns (exhausted: bool)
      requires active.Some?
      modifies this`active, this`requested, this`pending
      ensures View() == Spec.RequestFromActive(old(View()), config.parallelism)
      ensures exhausted <==> Spec.Remaining(old(active.value)) < config.parallelism
    {
      ghost var start := View();
      Spec.RequestNone(start);
      for i := 0 to config.parallelism
        invariant i <= Spec.Remaining(start.active.value)
        invariant View() == Spec.RequestFromActive(start, i)
      {
        Spec.RequestOneMore(start, i);
        var more := TrySolidifyOneMore();
        if !more {
          Spec.RequestAll(start, config.parallelism);
          return true;
        }
      }
      exhausted := false;
    }

    method DoComplete()
      requires active.None?
      modifies this, syncData
      ensures syncData == old(syncData)
      ensures View() == Spec.TakeNext(config, old(View()), true)
      decreases syncData.View().Size(), 0, 2
    {
      var gap := syncData.TakeLowestUncomplete();
      if gap.Some? {
        if gap.value.end != Spec.LAST_GAP_END {
          Start(gap.value, true);
          TriggerProcessMore();
        } else if highest > gap.value.start {
          Start(Range(gap.value.start, highest), true);
          TriggerProcessMore();
        } else {
          TriggerProcessMore();
        }
      } else {
        TriggerProcessMore();
      }
    }

    method DoFillGaps()
      requires active.None?
      modifies this, syncData
      ensures syncData == old(syncData)
      ensures View() == Spec.TakeNext(config, old(View()), false)
      decreases syncData.View().Size(), 0, 2
    {
      var gap := syncData.TakeLowestGap();
      if gap.Some? {
        if gap.value.end != Spec.LAST_GAP_END {
          Start(gap.value, false);
          TriggerProcessMore();
        } else if highest > gap.value.start {
          Start(Range(gap.value.start, highest), false);
          TriggerProcessMore();
        } else {
          TriggerProcessMore();
        }
      } else {
        TriggerProcessMore();
      }
    }

    method Start(gap: Range, complete: bool)
      modifies this`next, this`initialGapStart, this`initialGapEnd, this`active, this`taken
      ensures View() == Spec.Start(old(View()), gap, complete)
    {
      next := gap.start;
      initialGapStart := next;
      initialGapEnd := gap.end;
      taken := taken + [gap];
      active := Some(if complete then Spec.Complete(gap) else Spec.FillGaps(gap));
      assert View() == old(View()).(gap := View().gap, active := active, sent := View().sent);
    }
  }
}
