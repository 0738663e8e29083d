/** Entities that travel between the actors of the broker. */
module Types {

  datatype Option<+T> = None | Some(value: T)

  /** Who opened a milestone's entry in a Solidifier. */
  datatype CreatedBy = Incoming | Expected | Syncer

  /** A message id; only its first byte matters for routing to a Collector. */
  datatype MessageId = MessageId(firstByte: nat, rest: nat)

  /** The id of the genesis message. */
  const NULL_ID := MessageId(0, 0)

  /** A message: its parents and, for a milestone message, the index in the payload's essence. */
  datatype Message = Message(parents: seq<MessageId>, milestone: Option<nat>)

  /** A message's metadata; `refMs` is the milestone that references the message, once there is one. */
  datatype Metadata = Metadata(id: MessageId, refMs: Option<nat>)

  /** A message with the metadata of a referenced message. */
  datatype FullMessage = FullMessage(message: Message, id: MessageId, refMs: nat)

  /** Everything collected below one milestone. `milestone` is the id of the message whose payload was stored. */
  datatype MilestoneData = MilestoneData(
    index: nat,
    createdBy: CreatedBy,
    milestone: Option<MessageId>,
    messages: map<MessageId, FullMessage>,
    pending: set<MessageId>)
  {
    predicate Completed() {
      pending == {} && milestone.Some?
    }
  }

  function NewMilestoneData(index: nat, createdBy: CreatedBy): MilestoneData {
    MilestoneData(index, createdBy, None, map[], {})
  }

  /** Events of the Archiver's inbox. */
  datatype ArchiverEvent =
    | Data(data: MilestoneData, upperLimit: Option<nat>)
    | Close(index: nat)

  /** A Solidifier's answers to the Syncer. */
  datatype Reply = Collected(data: MilestoneData) | Unreachable(index: nat)
  {
    function Index(): nat {
      match this
      case Collected(data) => data.index
      case Unreachable(index) => index
    }
  }

  /** The indexes from, from + 1, ..., to - 1 in order. */
  function Iota(from: nat, to: nat): (s: seq<nat>)
    requires from <= to
    ensures |s| == to - from
    ensures forall k :: 0 <= k < |s| ==> s[k] == from + k
  {
    seq(to - from, k requires 0 <= k => from + k)
  }

  lemma IotaSplit(from: nat, mid: nat, to: nat)
    requires from <= mid <= to
    ensures Iota(from, to) == Iota(from, mid) + Iota(mid, to)
  {
  }
}
