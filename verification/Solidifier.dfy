/** The Solidifier actor. Each handler is proved to do what `SolidifierSpec` says. */
module SolidifierActor {
  import opened Types
  import Spec = SolidifierSpec

  class Solidifier {
    const partitionId: nat
    const collectorCount: nat
    const gapStart: nat
    const archiving: bool
    var milestonesData: map<nat, MilestoneData>
    var inDatabase: map<nat, Spec.InDatabase>
    var lruInDatabase: set<nat>
    var unreachable: set<nat>
    var first: Option<nat>
    var expected: nat
    /** Everything sent so far, to all receivers. */
    var sent: seq<Spec.Out>

    ghost function View(): Spec.State
      reads this
    {
      Spec.State(partitionId, collectorCount, gapStart, archiving,
                 milestonesData, inDatabase, lruInDatabase, unreachable, first, expected)
    }

    /** The state and the sent messages are those of `now`, starting from `before` and `log`. */
    ghost predicate Did(now: (Spec.State, seq<Spec.Out>), log: seq<Spec.Out>)
      reads this
    {
      View() == now.0 && sent == log + now.1
    }

    constructor (partitionId: nat, collectorCount: nat, gapStart: nat, archiving: bool)
      ensures View() == Spec.Init(partitionId, collectorCount, gapStart, archiving) && sent == []
    {
      this.partitionId, this.collectorCount, this.gapStart, this.archiving := partitionId, collectorCount, gapStart, archiving;
      milestonesData, inDatabase, lruInDatabase, unreachable := map[], map[], {}, {};
      first, expected := None, 0;
      sent := [];
    }

    /** One event of the inbox. */
    method HandleEvent(e: Spec.Event)
      requires collectorCount > 0
      modifies this
      ensures Did(Spec.Step(old(View()), e), old(sent))
    {
      match e
      case Message(m) => HandleNewMsg(m);
      case Milestone(index, m) => HandleMilestoneMsg(index, m);
      case CloseMessage(id, index) => CloseMessageId(index, id);
      case Solidify(index) => HandleSolidify(index);
      case SolidifyFailure(index) => HandleSolidifyFailure(index);
      case Persisted(id, index) => HandlePersisted(id, index);
      case Analyzed(index) => HandleAnalyzed(index);
      case Synced(index) =>
    }

    method HandlePersisted(id: MessageId, index: nat)
      modifies this
      ensures Did(Spec.HandlePersisted(old(View()), id, index), old(sent))
    {
      if index in inDatabase {
        inDatabase := inDatabase[index := inDatabase[index].(ids := inDatabase[index].ids + {id})];
        if inDatabase[index].AllInDatabase() {
          HandleInDatabase(index);
        }
      } else if index !in lruInDatabase && index !in unreachable {
        inDatabase := inDatabase[index := Spec.NEW_IN_DATABASE.(ids := {id})];
      }
    }

    method HandleAnalyzed(index: nat)
      modifies this
      ensures Did(Spec.HandleAnalyzed(old(View()), index), old(sent))
    {
      if index in inDatabase {
        inDatabase := inDatabase[index := inDatabase[index].(analyzed := true)];
        if inDatabase[index].AllInDatabase() {
          HandleInDatabase(index);
        }
      }
    }

    /** Writes the sync row and forgets the milestone. */
    method HandleInDatabase(index: nat)
      modifies this`inDatabase, this`lruInDatabase, this`sent
      ensures inDatabase == old(inDatabase) - {index}
      ensures lruInDatabase == old(lruInDatabase) + {index}
      ensures sent == old(sent) + [Spec.InsertSync(index)]
    {
      inDatabase := inDatabase - {index};
      lruInDatabase := lruInDatabase + {index};
      sent := sent + [Spec.InsertSync(index)];
    }

    method HandleSolidifyFailure(index: nat)
      modifies this
      ensures Did(Spec.HandleSolidifyFailure(old(View()), index), old(sent))
    {
      if index !in unreachable {
        if index in milestonesData {
          var msData := milestonesData[index];
          milestonesData := milestonesData - {index};
          lruInDatabase := lruInDatabase - {index};
          inDatabase := inDatabase - {index};
          unreachable := unreachable + {index};
          if msData.createdBy == Syncer {
            sent := sent + [Spec.ToSyncer(Unreachable(index))];
          }
        }
      }
    }

    method HandleSolidify(index: nat)
      modifies this
      ensures Did(Spec.HandleSolidify(old(View()), index), old(sent))
    {
      if index >= expected {
        sent := sent + [Spec.ToSyncer(Unreachable(index))];
        return;
      }
      unreachable := unreachable - {index};
      if index in milestonesData {
        var msData := milestonesData[index];
        if msData.createdBy == Expected && msData.milestone.None? {
          milestonesData := milestonesData[index := msData.(createdBy := Syncer)];
          sent := sent + [Spec.AskMilestone(index)];
          OpenInDatabase(index);
        } else {
          sent := sent + [Spec.ToSyncer(Unreachable(index))];
        }
      } else {
        sent := sent + [Spec.AskMilestone(index)];
        milestonesData := milestonesData[index := NewMilestoneData(index, Syncer)];
        OpenInDatabase(index);
      }
    }

    method OpenInDatabase(index: nat)
      modifies this`inDatabase
      ensures View() == Spec.Opened(old(View()), index)
    {
      if index !in inDatabase {
        inDatabase := inDatabase[index := Spec.NEW_IN_DATABASE];
      }
    }

    method CloseMessageId(index: nat, id: MessageId)
      modifies this
      ensures Did(Spec.HandleClose(old(View()), id, index), old(sent))
    {
      if index in milestonesData {
        milestonesData := milestonesData[index := milestonesData[index].(pending := milestonesData[index].pending - {id})];
        CheckIfCompleted(index);
      }
    }

    method HandleNewMsg(m: FullMessage)
      requires collectorCount > 0
      modifies this
      ensures Did(Spec.HandleMessage(old(View()), m), old(sent))
    {
      if m.refMs in milestonesData {
        ProcessMilestoneData(m.refMs, m);
        CheckIfCompleted(m.refMs);
      } else {
        InsertNewEntryOrNot(m.refMs, m);
      }
    }

    method HandleMilestoneMsg(index: nat, m: FullMessage)
      requires collectorCount > 0
      modifies this
      ensures Did(Spec.HandleMilestone(old(View()), index, m), old(sent))
    {
      if index in milestonesData {
        ProcessMilestoneData(index, m);
        milestonesData := milestonesData[index := milestonesData[index].(milestone := Some(m.id))];
        CheckIfCompleted(index);
      } else {
        InsertNewEntryOrNot(index, m);
      }
    }

    /** Pushes a completed entry to the one who asked for it. */
    method CheckIfCompleted(index: nat)
      requires index in milestonesData
      modifies this
      ensures Did(Spec.PushIfCompleted(old(View()), index), old(sent))
    {
      if milestonesData[index].Completed() {
        Push(index);
      }
    }

    method Push(index: nat)
      requires index in milestonesData
      modifies this
      ensures Did(Spec.PushOut(old(View()), index), old(sent))
    {
      var msData := milestonesData[index];
      milestonesData := milestonesData - {index};
      sent := sent + [Spec.InsertAnalytic(msData)];
      OpenInDatabase(index);
      inDatabase := inDatabase[index := inDatabase[index].(messagesLen := Some(|msData.messages|))];
      SyncIfAllIn(index);
      Deliver(msData);
    }

    method SyncIfAllIn(index: nat)
      requires index in inDatabase
      modifies this`inDatabase, this`lruInDatabase, this`sent
      ensures Did(Spec.SyncIfAllIn(old(View()), index), old(sent))
    {
      if inDatabase[index].AllInDatabase() {
        HandleInDatabase(index);
      }
    }

    /** Hands collected data to the one who asked for it. */
    method Deliver(msData: MilestoneData)
      modifies this`sent
      ensures sent == old(sent) + Spec.Deliver(View(), msData)
    {
      if msData.createdBy == Syncer {
        sent := sent + [Spec.ToSyncer(Collected(msData))];
      } else if archiving {
        sent := sent + [Spec.ToArchiver(Data(msData, None))];
      }
    }

    /** Asks for the parents that are neither stored nor pending, and makes them pending. */
    method ProcessParents(parents: seq<MessageId>, msData: MilestoneData, index: nat) returns (d: MilestoneData)
      modifies this`sent
      ensures var missing := Spec.Missing(parents, Spec.Known(msData));
              && d == msData.(pending := msData.pending + Spec.Ids(missing))
              && sent == old(sent) + Spec.AsksFor(index, missing, msData.createdBy)
    {
      ghost var asked: seq<MessageId> := [];
      d := msData;
      for i := 0 to |parents|
        invariant Spec.ParentsDone(parents, i, msData, asked, d)
        invariant sent == old(sent) + Spec.AsksFor(index, asked, msData.createdBy)
      {
        Spec.ParentNext(parents, i, msData, asked, d);
        if parents[i] !in d.messages && parents[i] !in d.pending && parents[i] != NULL_ID {
          Spec.AsksForSnoc(index, asked, parents[i], msData.createdBy);
          sent := sent + [Spec.AskMessage(index, parents[i], d.createdBy)];
          d := d.(pending := d.pending + {parents[i]});
          asked := asked + [parents[i]];
        }
      }
    }

    method ProcessMilestoneData(index: nat, m: FullMessage)
      requires index in milestonesData
      modifies this`milestonesData, this`sent
      ensures milestonesData == old(milestonesData)[index := Spec.Stored(old(milestonesData)[index], m)]
      ensures sent == old(sent) + Spec.ParentAsks(old(milestonesData)[index], index, m)
    {
      var d := ProcessParents(m.message.parents, milestonesData[index], index);
      d := d.(pending := d.pending - {m.id});
      d := d.(messages := d.messages[m.id := m]);
      milestonesData := milestonesData[index := d];
    }

    /** Decides whether a message of a milestone without an entry opens one. */
    method InsertNewEntryOrNot(index: nat, m: FullMessage)
      requires collectorCount > 0 && index !in milestonesData
      modifies this
      ensures Did(Spec.InsertNewEntryOrNot(old(View()), index, m), old(sent))
    {
      if index in unreachable {
        return;
      }
      if first.None? {
        if index >= gapStart {
          InsertFirst(index, m);
        }
      } else if index >= expected {
        InsertIncoming(index, m);
      }
    }

    method InsertFirst(index: nat, m: FullMessage)
      modifies this
      ensures Did(Spec.InsertFirst(old(View()), index, m), old(sent))
    {
      first := Some(index);
      sent := sent + [Spec.AskMilestone(index)];
      expected := index + collectorCount;
      milestonesData := milestonesData[index := NewMilestoneData(index, Syncer)];
      ProcessMilestoneData(index, m);
      assert milestonesData == old(milestonesData)[index := Spec.Stored(NewMilestoneData(index, Syncer), m)];
    }

    method InsertIncoming(index: nat, m: FullMessage)
      requires collectorCount > 0 && expected <= index
      modifies this
      ensures Did(Spec.InsertIncoming(old(View()), index, m), old(sent))
    {
      var d := NewMilestoneData(index, Incoming);
      if m.message.milestone.Some? {
        d := d.(milestone := Some(m.id));
      }
      milestonesData := milestonesData[index := d];
      ProcessMilestoneData(index, m);
      assert milestonesData == old(milestonesData)[index := Spec.Stored(d, m)];
      InsertExpected(index);
      expected := index + collectorCount;
    }

    /** Opens entries for the skipped indexes of this Solidifier below `index`. */
    method InsertExpected(index: nat)
      requires collectorCount > 0 && expected <= index
      modifies this`milestonesData
      ensures milestonesData == Spec.WithExpected(partitionId, collectorCount, expected, index, old(milestonesData))
    {
      for e := expected to index
        invariant milestonesData == Spec.WithExpected(partitionId, collectorCount, expected, e, old(milestonesData))
      {
        var id := e % collectorCount;
        if id == partitionId && e !in milestonesData {
          milestonesData := milestonesData[e := NewMilestoneData(e, Expected)];
        }
      }
    }

    /** The caches drop old entries. */
    method Forget(droppedUnreachable: set<nat>, droppedInDatabase: set<nat>)
      modifies this
      ensures View() == Spec.Forget(old(View()), droppedUnreachable, droppedInDatabase) && sent == old(sent)
    {
      unreachable := unreachable - droppedUnreachable;
      lruInDatabase := lruInDatabase - droppedInDatabase;
    }
  }
}
