/** The TCP transport of the master (MbTcpTransport): a 16-bit transaction counter, and the
    socket reduced to whether it is connected, whether it has been closed, and the frames
    written to it. What the network does is passed in as arguments: whether the connection
    came up, whether a poll found the peer half-closed, the segments a receive collected and
    whether the receive timed out. */
module MbTcpTransport {
  import opened Codes
  import opened TryMonad
  import opened Codec
  import opened MbHelpers
  import opened EnumerableExtensions

  /** The counter after `v`: 0xFFFF wraps to 0, anything else goes up by one. */
  function NextId(v: ushort): (r: ushort)
    ensures r == (v + 1) % 0x1_0000
  {
    if v == 0xFFFF then 0 else v + 1
  }

  /** The counter after `k` advances from `v`. */
  function Advance(v: ushort, k: nat): ushort
  {
    if k == 0 then v else NextId(Advance(v, k - 1))
  }

  /** Advancing `k` times adds `k` modulo 2^16: the counter runs through every 16-bit value and
      comes back to where it started after 65536 advances. */
  lemma {:induction false} AdvanceAdds(v: ushort, k: nat)
    ensures Advance(v, k) == (v + k) % 0x1_0000
  {
    if k > 0 {
      AdvanceAdds(v, k - 1);
      SuccessorModulo(v + k - 1);
    }
  }

  /** Taking the remainder before adding one does not change the remainder after. */
  lemma SuccessorModulo(x: nat)
    ensures (x % 0x1_0000 + 1) % 0x1_0000 == (x + 1) % 0x1_0000
  {
    var p := x % 0x1_0000;
    var q := x / 0x1_0000;
    assert x == q * 0x1_0000 + p;
    if p + 1 == 0x1_0000 {
      assert x + 1 == (q + 1) * 0x1_0000;
    } else {
      assert x + 1 == q * 0x1_0000 + (p + 1);
    }
  }

  /** LittleNibble: `(byte)(val & 0x00ff)`, the byte that agrees with the value in its low eight
      bits. */
  function LittleNibble(val: ushort): (r: byte)
    ensures (val - r) % 256 == 0
  {
    val % 256
  }

  /** BigNibble: `(byte)(val >> 8)`, the number of whole 256s in the value. */
  function BigNibble(val: ushort): (r: byte)
    ensures r * 256 <= val < r * 256 + 256
  {
    val / 256
  }

  /** The two nibbles put back together give the value again. */
  lemma NibblesRejoin(val: ushort)
    ensures BigNibble(val) * 256 + LittleNibble(val) == val
    ensures Word(BigNibble(val), LittleNibble(val)) == val
  {
  }

  /** Appending one more segment to the received bytes. */
  lemma {:induction false} FlattenAppend(segments: seq<seq<byte>>, i: nat)
    requires i < |segments|
    ensures Flatten(segments[..i + 1]) == Flatten(segments[..i]) + segments[i]
    decreases i
  {
    if i > 0 {
      var tail := segments[1..];
      assert segments[..i + 1][1..] == tail[..i];
      assert segments[..i][1..] == tail[..i - 1];
      FlattenAppend(tail, i - 1);
    } else {
      assert segments[..1][1..] == [];
    }
  }

  /** The do-while loop of Receive: each segment the socket delivers is appended to the buffer. */
  method Collect(segments: seq<seq<byte>>) returns (buffer: seq<byte>)
    ensures buffer == Flatten(segments)
  {
    buffer := [];
    var i := 0;
    while i < |segments|
      invariant 0 <= i <= |segments|
      invariant buffer == Flatten(segments[..i])
    {
      FlattenAppend(segments, i);
      buffer := buffer + segments[i];
      i := i + 1;
    }
    assert segments[..i] == segments;
  }

  /** What a receive that did not fail before collecting `buffer` returns: a time-out or an empty
      buffer is a socket failure, anything else is the PDU of the unwrapped frame. */
  function ReceiveOutcome(timedOut: bool, buffer: seq<byte>): (r: Try<seq<byte>>)
    ensures timedOut ==> r == TryFailure(Socket(TimedOut))
    ensures !timedOut && buffer == [] ==> r == TryFailure(Socket(NotConnected))
    ensures r.IsSuccess() <==> !timedOut && UnwrapMbapHeader(buffer).Returns?
    ensures r.IsSuccess() ==> r.success == UnwrapMbapHeader(buffer).value.pdu
  {
    if timedOut then Failure(Socket(TimedOut))
    else if buffer == [] then Failure(Socket(NotConnected))
    else
      match UnwrapMbapHeader(buffer)
      case Throws(e) => Failure(e)
      case Returns(m) => Success(m.pdu)
  }

  /** A frame received in time gives back its PDU, whatever transaction and unit ids it carries:
      neither is compared with the request's. */
  lemma ReceiveFrame(transId: ushort, unitId: byte, pdu: seq<byte>)
    requires |pdu| + 1 < 0x1_0000
    ensures ReceiveOutcome(false, MbapFrame(transId, unitId, pdu)) == TrySuccess(pdu)
  {
    UnwrapFrame(transId, unitId, pdu);
  }

  /** Whether a receive closes the socket: on a time-out and on an empty buffer. */
  predicate ReceiveCloses(timedOut: bool, buffer: seq<byte>)
  {
    timedOut || buffer == []
  }

  class TcpTransport {
    /** The transaction id the next request is framed with. */
    var transactionId: ushort
    /** Whether the socket is connected. */
    var connected: bool
    /** Whether the socket has been closed; a closed socket stays disconnected. */
    var closed: bool
    /** Every frame handed to the socket, in order. */
    var written: seq<seq<byte>>

    predicate Valid()
      reads this
    {
      closed ==> !connected
    }

    /** A new transport: counter at 0, socket neither connected nor closed. */
    constructor()
      ensures Valid()
      ensures transactionId == 0 && !connected && !closed && written == []
    {
      transactionId := 0;
      connected := false;
      closed := false;
      written := [];
    }

    /** NextTransaction. */
    method NextTransaction()
      modifies this
      ensures transactionId == NextId(old(transactionId))
      ensures connected == old(connected) && closed == old(closed) && written == old(written)
    {
      transactionId := if transactionId == 0xFFFF then 0 else transactionId + 1;
    }

    /** Connect: `wait` is how waiting for the connection (or the time-out) ended and
        `connectedAfterWait` whether the socket was connected afterwards. A wait that ends without
        a connection closes the socket and reports a time-out; a successful connect yields
        `false`, the value Try.Apply gives an action. */
    method Connect(wait: ActionOutcome, connectedAfterWait: bool) returns (r: Try<bool>)
      requires Valid()
      requires closed ==> !connectedAfterWait
      modifies this
      ensures Valid()
      ensures transactionId == old(transactionId) && written == old(written)
      ensures wait.Completed? && connectedAfterWait ==> r == TrySuccess(false) && connected && closed == old(closed)
      ensures wait.Completed? && !connectedAfterWait ==> r == TryFailure(Socket(TimedOut)) && closed && !connected
      ensures wait.Threw? ==>
                r == TryFailure(Unaggregate(wait.error)) && connected == connectedAfterWait && closed == old(closed)
    {
      r := ApplyAction(wait);
      connected := connectedAfterWait;
      if !connected && r.IsSuccess() {
        closed := true;
        r := Failure(Socket(TimedOut));
      }
    }

    /** Receive: `segments` are the chunks the receive loop collected before the socket had
        nothing more available, and `timedOut` whether the time-out fired first. A disconnected
        socket fails at once and leaves the counter alone; otherwise the counter advances once,
        whatever the outcome. */
    method Receive(timedOut: bool, segments: seq<seq<byte>>) returns (r: Try<seq<byte>>)
      requires Valid()
      modifies this
      ensures Valid()
      ensures written == old(written)
      ensures !old(connected) ==>
                r == TryFailure(Socket(NotConnected)) &&
                transactionId == old(transactionId) && connected == old(connected) && closed == old(closed)
      ensures old(connected) ==>
                && r == ReceiveOutcome(timedOut, Flatten(segments))
                && transactionId == NextId(old(transactionId))
                && closed == (old(closed) || ReceiveCloses(timedOut, Flatten(segments)))
                && connected == !ReceiveCloses(timedOut, Flatten(segments))
    {
      if !connected {
        r := Failure(Socket(NotConnected));
        return;
      }
      var buffer := Collect(segments);
      var received := ApplyAction(Completed);
      var res: Try<seq<byte>>;
      if timedOut {
        connected, closed := false, true;
        res := Failure(Socket(TimedOut));
      } else if |buffer| == 0 {
        connected, closed := false, true;
        res := Failure(Socket(NotConnected));
      } else {
        match UnwrapMbapHeader(buffer)
        case Throws(e) => res := Failure(e);
        case Returns(m) => res := Success(m.pdu);
      }
      r := SelectMany(received, (rec: bool) => res, (rec: bool, pdu: seq<byte>) => Returns(pdu));
      NextTransaction();
    }

    /** Send: a disconnected socket fails at once; a socket the poll finds readable has a
        half-closed peer and is closed. Otherwise the PDU is framed with the current transaction
        id, which is not advanced, and written; the result says whether any byte went out. */
    method Send(unitId: byte, adu: seq<byte>, readable: bool, sending: ActionOutcome, bytesTransferred: nat)
      returns (r: Try<bool>)
      requires Valid()
      modifies this
      ensures Valid()
      ensures transactionId == old(transactionId)
      ensures !old(connected) ==> r == TryFailure(Socket(NotConnected)) && unchanged(this)
      ensures old(connected) && readable ==>
                r == TryFailure(Socket(NotConnected)) && closed && !connected && written == old(written)
      ensures old(connected) && !readable ==>
                && written == old(written) + [MbapFrame(old(transactionId), unitId, adu)]
                && connected && closed == old(closed)
                && (sending.Completed? ==> r == TrySuccess(bytesTransferred > 0))
                && (sending.Threw? ==> r == TryFailure(Unaggregate(Unaggregate(sending.error))))
    {
      if !connected {
        r := Failure(Socket(NotConnected));
        return;
      }
      if readable {
        connected, closed := false, true;
        r := Failure(Socket(NotConnected));
        return;
      }
      var framed := Apply(Returns(MbapFrame(transactionId, unitId, adu)));
      written := written + [framed.success];
      var bufferSet := SelectMany(framed, (pdu: seq<byte>) => ApplyAction(Completed), (pdu: seq<byte>, s: bool) => Returns(pdu));
      r := SelectMany(bufferSet, (pdu: seq<byte>) => ApplyAction(sending), (pdu: seq<byte>, snd: bool) => Returns(bytesTransferred > 0));
    }
  }

  /** Between two receives on a live connection, a send frames its request with the id the
      counter had after the first receive: each request carries a fresh id modulo 2^16. */
  method SendAfterReceive(t: TcpTransport, unitId: byte, adu: seq<byte>, segments: seq<seq<byte>>)
    requires t.Valid() && t.connected
    modifies t
    ensures t.Valid()
    ensures ReceiveCloses(false, Flatten(segments)) || t.written == old(t.written) + [MbapFrame((old(t.transactionId) + 1) % 0x1_0000, unitId, adu)]
  {
    var r := t.Receive(false, segments);
    if t.connected {
      var s := t.Send(unitId, adu, false, Completed, |adu| + 7);
    }
  }
}
