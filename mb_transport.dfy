/** The transport a master talks through (IMbTransport), seen from the master's side: every
    `Send` is logged, and what `Send` and `Receive` return is fixed in advance by the behaviour
    the transport was created with, indexed by how many calls of the same kind came before. */
module MbTransport {
  import opened Codes
  import opened TryMonad

  /** One call of `Send(slave, bytes)`. */
  datatype Request = Request(unitId: byte, pdu: seq<byte>)

  class Transport {
    /** The result of the n-th `Send`, given what it was asked to send. */
    const sendBehaviour: (nat, Request) -> Try<bool>
    /** The result of the n-th `Receive`. */
    const receiveBehaviour: nat -> Try<seq<byte>>

    /** Every `Send` so far, in order. */
    var sent: seq<Request>
    /** How many times `Receive` has been called. */
    var receives: nat

    constructor(sendBehaviour: (nat, Request) -> Try<bool>, receiveBehaviour: nat -> Try<seq<byte>>)
      ensures this.sendBehaviour == sendBehaviour && this.receiveBehaviour == receiveBehaviour
      ensures sent == [] && receives == 0
    {
      this.sendBehaviour := sendBehaviour;
      this.receiveBehaviour := receiveBehaviour;
      sent := [];
      receives := 0;
    }

    /** What the next `Send` for `unitId` would return, as a function of the PDU. */
    function Sender(unitId: byte): seq<byte> -> Try<bool>
      reads this
    {
      var n := |sent|;
      pdu => sendBehaviour(n, Request(unitId, pdu))
    }

    /** What the next `Receive` would return. */
    function NextReceive(): Try<seq<byte>>
      reads this
    {
      receiveBehaviour(receives)
    }

    /** `Send(slave, bytes)`: logged, answered by the behaviour. */
    method Send(unitId: byte, pdu: seq<byte>) returns (r: Try<bool>)
      modifies this
      ensures sent == old(sent) + [Request(unitId, pdu)] && receives == old(receives)
      ensures r == old(Sender(unitId))(pdu)
    {
      r := sendBehaviour(|sent|, Request(unitId, pdu));
      sent := sent + [Request(unitId, pdu)];
    }

    /** `Receive()`: counted, answered by the behaviour. */
    method Receive() returns (r: Try<seq<byte>>)
      modifies this
      ensures sent == old(sent) && receives == old(receives) + 1
      ensures r == old(NextReceive())
    {
      r := receiveBehaviour(receives);
      receives := receives + 1;
    }
  }
}
