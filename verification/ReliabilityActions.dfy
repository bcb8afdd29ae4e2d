/** What the two state machines hand back to their caller. */
module ReliabilityActions {
  import Bytes
  import opened SerialCount
  import opened SequenceSet

  datatype Error =
    | NoError
    | InvalidConfiguration
    | InvalidArgument
    | UnexpectedPeer
    | InvalidSequenceNumber
    | NonMonotonicSequence
    | PayloadTooLarge
    | HistoryFull
    | ActionCapacityExceeded
    | StaleControl
    | DuplicateData
    | StaleData
    | ReceiveWindowExceeded
    | TimeRegression
    | GapNotRepairable

  datatype RepairFailure = RepairLimitExceeded | RepairWindowExpired

  /** A payload pointer is the index of the history slot that holds the payload. */
  datatype Action =
    | SendData(sequence: nat, slot: nat, size: nat)
    | RetransmitData(sequence: nat, slot: nat, size: nat)
    | SendAckNack(readerState: NumberSet, count: i32, finalFlag: bool)
    | SampleReceived(sequence: nat)
    | SampleDelivered(sequence: nat)
    | SampleFailed(sequence: nat, failure: RepairFailure)

  class ActionBuffer {
    const capacity: nat
    var items: seq<Action>

    ghost predicate Valid()
      reads this
    {
      |items| <= capacity
    }

    constructor (capacity: nat)
      ensures Valid() && this.capacity == capacity && items == []
    {
      this.capacity := capacity;
      items := [];
    }

    method Push(action: Action) returns (ok: bool)
      requires Valid()
      modifies this
      ensures Valid()
      ensures ok <==> old(Remaining()) > 0
      ensures items == if ok then old(items) + [action] else old(items)
    {
      if |items| == capacity {
        return false;
      }
      items := items + [action];
      return true;
    }

    function Remaining(): (n: nat)
      requires Valid()
      reads this
      ensures |items| + n == capacity
    {
      capacity - |items|
    }
  }

  /** Sequence numbers the state machines accept; one below the RTPS maximum, so `last + 1` is valid. */
  predicate ValidStateSequence(s: nat)
  {
    s != 0 && s < Bytes.INT64_MAX
  }
}
