/** The Collector actor. Each handler is proved to do what `CollectorSpec` says. */
module CollectorActor {
  import opened Types
  import So = SolidifierSpec
  import Spec = CollectorSpec

  class Collector {
    const collectorCount: nat
    var estMs: nat
    var refMs: nat
    var lruMsg: map<MessageId, Spec.Cached>
    var lruMsgRef: map<MessageId, nat>
    /** Asks that wait for metadata, at most one for each message. */
    var pendingRequests: seq<Spec.Parked>
    var requesterHandles: seq<Spec.Handle>
    /** Everything sent so far. */
    var sent: seq<Spec.Out>

    ghost function View(): Spec.State
      reads this
    {
      Spec.State(collectorCount, estMs, refMs, lruMsg, lruMsgRef, pendingRequests, requesterHandles)
    }

    ghost predicate Did(now: (Spec.State, seq<Spec.Out>), log: seq<Spec.Out>)
      reads this
    {
      View() == now.0 && sent == log + now.1
    }

    constructor (collectorCount: nat, requesters: seq<Spec.Handle>)
      ensures View() == Spec.State(collectorCount, 0, 0, map[], map[], [], requesters) && sent == []
    {
      this.collectorCount := collectorCount;
      estMs, refMs := 0, 0;
      lruMsg, lruMsgRef, pendingRequests, requesterHandles := map[], map[], [], requesters;
      sent := [];
    }

    method HandleEvent(e: Spec.Event)
      requires collectorCount > 0
      modifies this
      ensures Did(Spec.Step(old(View()), e), old(sent))
    {
      match e
      case Fetched(requester, index, result) => HandleMessageAndMeta(requester, index, result);
      case Seen(id, message) => HandleMessage(id, message);
      case Referenced(metadata) => HandleMessageReferenced(metadata);
      case AskMessage(solidifier, index, id, createdBy) => HandleAskFullMessage(solidifier, index, id, createdBy);
      case AskMilestone(index) => RequestMessage(Spec.TheMilestone, index);
    }

    method Send(o: Spec.Out)
      modifies this`sent
      ensures sent == old(sent) + [o]
    {
      sent := sent + [o];
    }

    /** Sends a request to a Requester with the fewest unanswered requests. */
    method RequestMessage(target: Spec.Target, index: nat)
      modifies this`requesterHandles, this`sent
      ensures (requesterHandles, sent)
           == (Spec.Ask(old(requesterHandles), target, index).0, old(sent) + Spec.Ask(old(requesterHandles), target, index).1)
    {
      if requesterHandles != [] {
        var i := Spec.Least(requesterHandles);
        Send(Spec.Request(requesterHandles[i].id, target, index));
        requesterHandles := Spec.SendTo(requesterHandles, i);
      } else {
        assert sent + [] == sent;
      }
    }

    method AdjustHeap(requester: nat)
      modifies this`requesterHandles
      ensures requesterHandles == Spec.Decremented(old(requesterHandles), requester)
    {
      var i := 0;
      while i < |requesterHandles|
        invariant 0 <= i <= |requesterHandles| == |old(requesterHandles)|
        invariant requesterHandles[..i] == Spec.Decremented(old(requesterHandles), requester)[..i]
        invariant requesterHandles[i..] == old(requesterHandles)[i..]
      {
        var h := requesterHandles[i];
        assert h == old(requesterHandles)[i];
        if h.id == requester {
          requesterHandles := requesterHandles[i := h.(processed := h.processed - 1)];
        }
        i := i + 1;
      }
    }

    method HandleMessageAndMeta(requester: nat, index: nat, result: Option<FullMessage>)
      requires collectorCount > 0
      modifies this
      ensures Did(Spec.HandleFetched(old(View()), requester, index, result), old(sent))
    {
      AdjustHeap(requester);
      match result
      case None => Send(Spec.ToSolidifier(index % collectorCount, So.SolidifyFailure(index)));
      case Some(f) =>
        if f.refMs == index {
          Send(Spec.ToSolidifier(index % collectorCount, So.Message(f)));
        } else {
          Send(Spec.ToSolidifier(index % collectorCount, So.CloseMessage(f.id, index)));
        }
        refMs := f.refMs;
        var wrongMsgEstMs: Option<nat> := None;
        if f.id in lruMsg {
          if lruMsg[f.id].est != f.refMs {
            wrongMsgEstMs := Some(lruMsg[f.id].est);
          }
          lruMsg := lruMsg[f.id := lruMsg[f.id].(est := f.refMs)];
        } else {
          lruMsg := lruMsg[f.id := Spec.Cached(refMs, f.message)];
        }
        lruMsgRef := lruMsgRef[f.id := f.refMs];
        if wrongMsgEstMs.Some? {
          CleanUpWrongEstimate(f.id, wrongMsgEstMs.value);
        }
        Send(Spec.Persist(f.id, refMs));
    }

    method HandleMessage(id: MessageId, message: Message)
      modifies this
      ensures Did(Spec.HandleSeen(old(View()), id, message), old(sent))
    {
      if id !in lruMsg {
        if id in lruMsgRef {
          Send(Spec.Persist(id, lruMsgRef[id]));
        }
        lruMsg := lruMsg[id := Spec.Cached(estMs, message)];
      }
    }

    method HandleMessageReferenced(metadata: Metadata)
      requires collectorCount > 0
      modifies this
      ensures Did(Spec.HandleReferenced(old(View()), metadata), old(sent))
    {
      if metadata.refMs.None? {
        return;
      }
      var ref := metadata.refMs.value;
      refMs := ref;
      if estMs < ref + 1 {
        estMs := ref + 1;
      }
      if metadata.id !in lruMsgRef {
        lruMsgRef := lruMsgRef[metadata.id := ref];
        if metadata.id in lruMsg {
          ReferenceKnown(metadata.id, ref);
        } else {
          ReferenceUnknown(metadata.id, ref);
        }
      }
    }

    /** Metadata of a message that has been seen. */
    method ReferenceKnown(id: MessageId, ref: nat)
      requires collectorCount > 0 && id in lruMsg
      requires refMs == ref
      modifies this
      ensures Did(Spec.Reference(old(View()), id, ref), old(sent))
    {
      var est := PushKnown(id, ref);
      ProcessPendingRequests(ref);
      ghost var log := sent;
      CleanUpWrongEstimate(id, est);
      Send(Spec.Persist(id, refMs));
      assert sent == log + Spec.Written(old(View()), id, ref);
      ReferenceParts(old(View()), old(sent), id, ref);
    }

    static lemma ReferenceParts(s: Spec.State, log: seq<Spec.Out>, id: MessageId, ref: nat)
      requires s.count > 0
      ensures log + Spec.Pushed(s, id, ref) + Spec.Settle(s, Spec.Find(s.parked, id), id, ref)
              + Spec.Release(s.requesters, Spec.Remove(s.parked, id), ref).2 + Spec.Written(s, id, ref)
           == log + Spec.Reference(s, id, ref).1
    {
    }

    /** Pushes the message and corrects its estimate; returns the old one. */
    method PushKnown(id: MessageId, ref: nat) returns (est: nat)
      requires collectorCount > 0 && id in lruMsg
      modifies this`lruMsg, this`pendingRequests, this`sent
      ensures est == old(lruMsg)[id].est
      ensures lruMsg == Spec.Corrected(old(View()), id, ref, old(lruMsg)[id].message)
      ensures pendingRequests == Spec.Remove(old(pendingRequests), id)
      ensures sent == old(sent) + Spec.Pushed(old(View()), id, ref) + Spec.Settle(old(View()), Spec.Find(old(pendingRequests), id), id, ref)
    {
      var cached := lruMsg[id];
      est := cached.est;
      lruMsg := lruMsg[id := cached.(est := ref)];
      Send(Spec.ToSolidifier(ref % collectorCount, So.Message(FullMessage(cached.message, id, ref))));
      SettlePending(id, ref);
    }

    /** The message was pushed anyway, so only a parked ask of another milestone is left to close. */
    method SettlePending(id: MessageId, ref: nat)
      requires collectorCount > 0 && id in lruMsg
      modifies this`pendingRequests, this`sent
      ensures pendingRequests == Spec.Remove(old(pendingRequests), id)
      ensures sent == old(sent) + Spec.Settle(old(View()), Spec.Find(old(pendingRequests), id), id, ref)
    {
      var parked := RemovePending(id);
      if parked.Some? {
        if parked.value.index != ref {
          Send(Spec.Close(parked.value.index, collectorCount, id));
        }
      }
    }

    method CleanUpWrongEstimate(id: MessageId, est: nat)
      modifies this`sent
      ensures sent == old(sent) + if est != refMs then [Spec.CleanUp(id, est)] else []
    {
      if est != refMs {
        Send(Spec.CleanUp(id, est));
      }
    }

    /** Metadata of a message that was not seen, or forgotten. */
    method ReferenceUnknown(id: MessageId, ref: nat)
      requires collectorCount > 0 && id !in lruMsg
      requires refMs == ref
      modifies this
      ensures Did(Spec.Reference(old(View()), id, ref), old(sent))
    {
      var parked := SettleUnknown(id, ref);
      ProcessPendingRequests(ref);
      ghost var log := sent;
      if parked {
        Send(Spec.Persist(id, refMs));
      }
      assert sent == log + Spec.Written(old(View()), id, ref);
      ReferenceParts(old(View()), old(sent), id, ref);
    }

    /** A parked ask gets the message it was parked with, or a close. */
    method SettleUnknown(id: MessageId, ref: nat) returns (parked: bool)
      requires collectorCount > 0 && id !in lruMsg
      modifies this`pendingRequests, this`sent
      ensures parked == Spec.Find(old(pendingRequests), id).Some?
      ensures pendingRequests == Spec.Remove(old(pendingRequests), id)
      ensures sent == old(sent) + Spec.Pushed(old(View()), id, ref)
                      + Spec.Settle(old(View()), Spec.Find(old(pendingRequests), id), id, ref)
    {
      var request := RemovePending(id);
      parked := request.Some?;
      if parked {
        if request.value.index == ref {
          Send(Spec.ToSolidifier(ref % collectorCount, So.Message(FullMessage(request.value.message, id, ref))));
        } else {
          Send(Spec.Close(request.value.index, collectorCount, id));
        }
      }
    }

    method RemovePending(id: MessageId) returns (parked: Option<Spec.Parked>)
      modifies this`pendingRequests
      ensures parked == Spec.Find(old(pendingRequests), id)
      ensures pendingRequests == Spec.Remove(old(pendingRequests), id)
    {
      parked := Spec.Find(pendingRequests, id);
      pendingRequests := Spec.Remove(pendingRequests, id);
    }

    /** Requests the parked asks of milestones below `milestoneIndex`. */
    method ProcessPendingRequests(milestoneIndex: nat)
      modifies this`pendingRequests, this`requesterHandles, this`sent
      ensures var (hs, kept, released) := Spec.Release(old(requesterHandles), old(pendingRequests), milestoneIndex);
              requesterHandles == hs && pendingRequests == kept && sent == old(sent) + released
    {
      var taken := pendingRequests;
      pendingRequests := [];
      ghost var goal := Spec.Release(requesterHandles, taken, milestoneIndex);
      ghost var log := sent;
      for i := 0 to |taken|
        invariant var rest := Spec.Release(requesterHandles, taken[i..], milestoneIndex);
                  goal.0 == rest.0 && goal.1 == pendingRequests + rest.1 && log + goal.2 == sent + rest.2
      {
        assert taken[i..][1..] == taken[i + 1..] && taken[i..][0] == taken[i];
        if taken[i].index < milestoneIndex {
          RequestMessage(Spec.TheMessage(taken[i].id), taken[i].index);
        } else {
          pendingRequests := pendingRequests + [taken[i]];
        }
      }
    }

    method HandleAskFullMessage(solidifier: nat, index: nat, id: MessageId, createdBy: CreatedBy)
      requires collectorCount > 0
      modifies this
      ensures Did(Spec.HandleAsk(old(View()), solidifier, index, id, createdBy), old(sent))
    {
      if id in lruMsg {
        if id in lruMsgRef {
          AnswerAsk(solidifier, index, id, createdBy);
        } else if estMs != 0 {
          var highestMs := estMs - 1;
          if index >= highestMs {
            ParkAsk(solidifier, index, id);
          } else {
            RequestMessage(Spec.TheMessage(id), index);
          }
        } else {
          RequestMessage(Spec.TheMessage(id), index);
        }
      } else {
        RequestMessage(Spec.TheMessage(id), index);
      }
    }

    /** Message and metadata are known: the message goes to the Solidifier, or the ask is closed. */
    method AnswerAsk(solidifier: nat, index: nat, id: MessageId, createdBy: CreatedBy)
      requires id in lruMsg && id in lruMsgRef
      modifies this
      ensures Did(Spec.AnswerAsk(old(View()), solidifier, index, id, createdBy), old(sent))
    {
      if lruMsgRef[id] != index {
        Send(Spec.ToSolidifier(solidifier, So.CloseMessage(id, index)));
      } else {
        Send(Spec.ToSolidifier(solidifier, So.Message(FullMessage(lruMsg[id].message, id, lruMsgRef[id]))));
        if createdBy == Syncer {
          refMs := index;
          Send(Spec.Persist(id, refMs));
        }
      }
    }

    method ParkAsk(solidifier: nat, index: nat, id: MessageId)
      requires collectorCount > 0 && id in lruMsg
      modifies this
      ensures Did(Spec.ParkAsk(old(View()), solidifier, index, id), old(sent))
    {
      var parked := Spec.Find(pendingRequests, id);
      if parked.Some? {
        var oldMs := parked.value.index;
        if oldMs < index {
          Send(Spec.ToSolidifier(solidifier, So.CloseMessage(id, index)));
        } else {
          pendingRequests := Spec.Remove(pendingRequests, id) + [parked.value.(index := index)];
          Send(Spec.Close(oldMs, collectorCount, id));
        }
      } else {
        pendingRequests := pendingRequests + [Spec.Parked(id, index, lruMsg[id].message)];
      }
    }

    method Forget(messages: set<MessageId>, refs: set<MessageId>)
      modifies this
      ensures View() == Spec.Forget(old(View()), messages, refs) && sent == old(sent)
    {
      lruMsg := lruMsg - messages;
      lruMsgRef := lruMsgRef - refs;
    }
  }
}
