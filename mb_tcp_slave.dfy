/** How the slave (MbTcpSlave) answers one request: it checks the MBAP header, dispatches on the
    function code to the handlers of ModbusFunctions with the slave's callbacks, and frames either
    the reply PDU or an exception reply. `Reply` states the answer as a function of the request
    bytes; `TcpSlave.Respond` computes it the way the slave does, over arrays. */
module MbTcpSlave {
  import opened Codes
  import opened Codec
  import opened MbHelpers
  import opened ModbusFunctions

  /** The callbacks a slave is configured with; `None` is a callback left null. */
  datatype Callbacks = Callbacks(
    onReadHoldingRegisters: Option<(ushort, ushort) -> ReadCall<ushort>>,
    onReadInputRegisters: Option<(ushort, ushort) -> ReadCall<ushort>>,
    onReadCoils: Option<(ushort, ushort) -> ReadCall<bool>>,
    onReadDiscretes: Option<(ushort, ushort) -> ReadCall<bool>>,
    onWriteHoldingRegisters: Option<(ushort, seq<ushort>) -> WriteCall>,
    onWriteCoils: Option<(ushort, seq<bool>) -> WriteCall>)

  /** The response code and the response buffer once the switch on the function code is done. */
  datatype Switched = Switched(code: ExceptionCode, buffer: seq<byte>)

  /** What the switch leaves when no case handles the request. */
  const Unhandled: Handled<Switched> := Answered(Switched(IllegalFunction, []))

  /** A read case: on Ok the buffer is the function code, the data length and the data. */
  function ReadCase(functionCode: byte, read: Handled<ReadReply>): (r: Handled<Switched>)
    ensures read.Faulted? <==> r.Faulted?
    ensures read.Answered? ==> r.value.code == read.value.code
    ensures read.Answered? && read.value.code == Ok ==>
              r.value.buffer == [functionCode, LoOfInt(|read.value.data|)] + read.value.data
    ensures read.Answered? && read.value.code != Ok ==> r.value.buffer == []
  {
    match read
    case Faulted => Faulted
    case Answered(reply) =>
      Answered(Switched(reply.code, if reply.code == Ok then [functionCode, LoOfInt(|reply.data|)] + reply.data else []))
  }

  /** A write case: on Ok the buffer echoes bytes 7 to 11 of the request (function code, address,
      and value or quantity). */
  function WriteCase(request: seq<byte>, written: Handled<ExceptionCode>): (r: Handled<Switched>)
    requires |request| >= 12
    ensures written.Faulted? <==> r.Faulted?
    ensures written.Answered? ==> r.value.code == written.value
    ensures written.Answered? ==> r.value.buffer == if written.value == Ok then request[7..12] else []
  {
    match written
    case Faulted => Faulted
    case Answered(code) => Answered(Switched(code, if code == Ok then request[7..12] else []))
  }

  /** The switch of Respond. Codes 1, 2, 3, 5 and 6 are handled only for a 12-byte request, code
      4 whatever the length; codes 15 and 16 only when the request is longer than 13 bytes and
      its byte count (byte 12) accounts for all bytes after the thirteenth. Any other code is an
      illegal function; only a handled code can fault; an Ok buffer starts with the function code
      and any other code leaves the buffer empty. */
  function Dispatch(request: seq<byte>, requestLength: int, h: Callbacks): (r: Handled<Switched>)
    requires |request| >= 12 && requestLength <= |request|
    ensures !(request[7] in {1, 2, 3, 4, 5, 6, 15, 16}) ==> r == Unhandled
    ensures r.Faulted? ==> request[7] in {1, 2, 3, 4, 5, 6, 15, 16}
    ensures r.Answered? && r.value.code == Ok ==> |r.value.buffer| > 0 && r.value.buffer[0] == request[7]
    ensures r.Answered? && r.value.code != Ok ==> r.value.buffer == []
  {
    var functionCode := request[7];
    var address := Word(request[8], request[9]);
    var count := Word(request[10], request[11]);
    match functionCode
    case 1 => if requestLength == 12 then ReadCase(functionCode, ReadDigitals(address, count, h.onReadCoils)) else Unhandled
    case 2 => if requestLength == 12 then ReadCase(functionCode, ReadDigitals(address, count, h.onReadDiscretes)) else Unhandled
    case 3 => if requestLength == 12 then ReadCase(functionCode, ReadAnalogs(address, count, h.onReadHoldingRegisters)) else Unhandled
    case 4 => ReadCase(functionCode, ReadAnalogs(address, count, h.onReadInputRegisters))
    case 5 =>
      if requestLength == 12 then WriteCase(request, WriteCoils(address, 1, Some(request[10..12]), h.onWriteCoils))
      else Unhandled
    case 6 =>
      if requestLength == 12 then WriteCase(request, WriteHoldingRegisters(address, 1, Some(request[10..12]), h.onWriteHoldingRegisters))
      else Unhandled
    case 15 =>
      if requestLength > 13 && requestLength == request[12] as int + 13 then
        WriteCase(request, WriteCoils(address, count, Some(request[13..requestLength]), h.onWriteCoils))
      else Unhandled
    case 16 =>
      if requestLength > 13 && requestLength == request[12] as int + 13 then
        WriteCase(request, WriteHoldingRegisters(address, count, Some(request[13..requestLength]), h.onWriteHoldingRegisters))
      else Unhandled
    case _ => Unhandled
  }

  /** Whether the first `requestLength` bytes are a frame Respond goes on with: longer than 8
      bytes, protocol id 0, and a length field that accounts for every byte after the sixth. */
  predicate Framed(request: seq<byte>, requestLength: int)
    requires |request| >= 6
  {
    requestLength > 8 && Word(request[2], request[3]) == 0 && Word(request[4], request[5]) as int + 6 == requestLength
  }

  /** The bytes Respond answers `request` with (or that it faults). Nothing is sent back for a
      request that is not framed, or whose handling ends with Ok and an empty buffer; a code other
      than Ok gives the exception reply; otherwise the buffer goes out under the request's
      transaction and unit ids. It faults only for a framed request whose handling faults; a
      non-empty reply carries the request's unit id and its function code, flagged as an
      exception or not. */
  function Reply(request: seq<byte>, requestLength: int, h: Callbacks): (r: Handled<seq<byte>>)
    requires |request| >= 12 && requestLength <= |request|
    ensures !Framed(request, requestLength) ==> r == Answered([])
    ensures r.Faulted? <==> Framed(request, requestLength) && Dispatch(request, requestLength, h).Faulted?
    ensures r.Answered? && r.value != [] ==>
              && Framed(request, requestLength) && |r.value| >= 8 && r.value[6] == request[6]
              && (r.value[7] == request[7] || r.value[7] == SetHighBit(request[7]))
  {
    if !Framed(request, requestLength) then Answered([])
    else
      var transId := Word(request[0], request[1]);
      var unitId := request[6];
      match Dispatch(request, requestLength, h)
      case Faulted => Faulted
      case Answered(Switched(code, buffer)) =>
        if code != Ok then Answered(ExceptionFrame(transId, unitId, request[7], code))
        else if |buffer| != 0 then Answered(MbapFrame(transId, unitId, buffer))
        else Answered([])
  }

  /** A request that is not framed gets no reply, whatever the callbacks. */
  lemma UnframedIgnored(request: seq<byte>, requestLength: int, h: Callbacks)
    requires |request| >= 12 && requestLength <= |request|
    requires requestLength <= 8 || Word(request[2], request[3]) != 0 || Word(request[4], request[5]) as int + 6 != requestLength
    ensures Reply(request, requestLength, h) == Answered([])
  {
  }

  /** A framed request with a function code outside 1-6, 15, 16 gets the IllegalFunction
      exception reply, with the request's transaction and unit ids. */
  lemma UnknownFunctionRejected(request: seq<byte>, requestLength: int, h: Callbacks)
    requires |request| >= 12 && requestLength <= |request|
    requires Framed(request, requestLength)
    requires request[7] !in {1, 2, 3, 4, 5, 6, 15, 16}
    ensures Reply(request, requestLength, h) ==
            Answered(ExceptionFrame(Word(request[0], request[1]), request[6], request[7], IllegalFunction))
  {
  }

  /** Reads other than of input registers and single writes need a request of exactly 12 bytes;
      multiple writes need one whose byte count matches; otherwise the reply is IllegalFunction. */
  lemma BadLengthRejected(request: seq<byte>, requestLength: int, h: Callbacks)
    requires |request| >= 13 && requestLength <= |request|
    requires Framed(request, requestLength)
    requires || (request[7] in {1, 2, 3, 5, 6} && requestLength != 12)
             || (request[7] in {15, 16} && !(requestLength > 13 && requestLength == request[12] as int + 13))
    ensures Reply(request, requestLength, h) ==
            Answered(ExceptionFrame(Word(request[0], request[1]), request[6], request[7], IllegalFunction))
  {
  }

  /** Function code 4 has no length check: at any request length it is read from bytes 8 to 11
      and handed to ReadAnalogs with the input-register callback. */
  lemma InputRegistersAnyLength(request: seq<byte>, requestLength: int, h: Callbacks)
    requires |request| >= 12 && requestLength <= |request|
    requires request[7] == 4
    ensures Dispatch(request, requestLength, h) ==
            ReadCase(4, ReadAnalogs(Word(request[8], request[9]), Word(request[10], request[11]), h.onReadInputRegisters))
  {
  }

  /** A 12-byte code 5 request writes one coil: WriteCoils gets the address, count 1 and the two
      value bytes 10 and 11. */
  lemma SingleCoilRouted(request: seq<byte>, h: Callbacks)
    requires |request| >= 12 && request[7] == 5
    ensures Dispatch(request, 12, h) ==
            WriteCase(request, WriteCoils(Word(request[8], request[9]), 1, Some(request[10..12]), h.onWriteCoils))
  {
  }

  /** A 12-byte code 6 request writes one register: WriteHoldingRegisters gets the address,
      count 1 and the two value bytes 10 and 11. */
  lemma SingleRegisterRouted(request: seq<byte>, h: Callbacks)
    requires |request| >= 12 && request[7] == 6
    ensures Dispatch(request, 12, h) ==
            WriteCase(request, WriteHoldingRegisters(Word(request[8], request[9]), 1, Some(request[10..12]), h.onWriteHoldingRegisters))
  {
  }

  /** Every reply Respond sends is a frame a master unwraps, carrying the request's transaction
      and unit ids, whose PDU starts with the request's function code (flagged with the high bit
      when it is an exception reply). */
  lemma {:induction false} RepliesAreFrames(request: seq<byte>, requestLength: int, h: Callbacks)
    requires |request| >= 12 && requestLength <= |request|
    requires Reply(request, requestLength, h) != Answered([]) && Reply(request, requestLength, h).Answered?
    ensures var frame := Reply(request, requestLength, h).value;
            && UnwrapMbapHeader(frame).Returns?
            && UnwrapMbapHeader(frame).value.transId == Word(request[0], request[1])
            && UnwrapMbapHeader(frame).value.unitId == request[6]
            && |UnwrapMbapHeader(frame).value.pdu| >= 2
            && UnwrapMbapHeader(frame).value.pdu[0] % 0x80 == request[7] % 0x80
  {
    var transId := Word(request[0], request[1]);
    var unitId := request[6];
    var s := Dispatch(request, requestLength, h).value;
    var buffer := if s.code != Ok then [SetHighBit(request[7]), s.code.ToByte()] else s.buffer;
    DispatchBufferBounded(request, requestLength, h);
    UnwrapFrame(transId, unitId, buffer);
  }

  /** The buffer an Ok case leaves holds the function code first and is never longer than a
      register read of 125 values. */
  lemma DispatchBufferBounded(request: seq<byte>, requestLength: int, h: Callbacks)
    requires |request| >= 12 && requestLength <= |request|
    requires Dispatch(request, requestLength, h).Answered?
    ensures var s := Dispatch(request, requestLength, h).value;
            s.code == Ok && s.buffer != [] ==> 2 <= |s.buffer| <= 2 + 2 * MaxReadRegisters && s.buffer[0] == request[7]
  {
    var address := Word(request[8], request[9]);
    var count := Word(request[10], request[11]);
    match request[7]
    case 1 => ReadBitsBounded(address, count, h.onReadCoils);
    case 2 => ReadBitsBounded(address, count, h.onReadDiscretes);
    case 3 => ReadWordsBounded(address, count, h.onReadHoldingRegisters);
    case 4 => ReadWordsBounded(address, count, h.onReadInputRegisters);
    case _ =>
  }

  /** A bit read answers Ok with at most ceil(2000 / 8) bytes. */
  lemma ReadBitsBounded(address: int, count: int, onRead: Option<(ushort, ushort) -> ReadCall<bool>>)
    ensures var r := ReadDigitals(address, count, onRead);
            r.Answered? && r.value.code == Ok ==> 0 < |r.value.data| <= 2 * MaxReadRegisters
  {
    var r := ReadDigitals(address, count, onRead);
    if r.Answered? && r.value.code == Ok {
      assert 1 <= count <= MaxReadBits;
      assert |r.value.data| == Ceil8(count);
    }
  }

  /** A register read answers Ok with at most 2 * 125 bytes. */
  lemma ReadWordsBounded(address: int, count: int, onRead: Option<(ushort, ushort) -> ReadCall<ushort>>)
    ensures var r := ReadAnalogs(address, count, onRead);
            r.Answered? && r.value.code == Ok ==> 0 < |r.value.data| <= 2 * MaxReadRegisters
  {
  }

  /** The slave: its callbacks, which are settable properties. */
  class TcpSlave {
    var onReadHoldingRegisters: Option<(ushort, ushort) -> ReadCall<ushort>>
    var onReadInputRegisters: Option<(ushort, ushort) -> ReadCall<ushort>>
    var onReadCoils: Option<(ushort, ushort) -> ReadCall<bool>>
    var onReadDiscretes: Option<(ushort, ushort) -> ReadCall<bool>>
    var onWriteHoldingRegisters: Option<(ushort, seq<ushort>) -> WriteCall>
    var onWriteCoils: Option<(ushort, seq<bool>) -> WriteCall>

    /** A new slave has no callbacks. */
    constructor()
      ensures Handlers() == Callbacks(None, None, None, None, None, None)
    {
      onReadHoldingRegisters := None;
      onReadInputRegisters := None;
      onReadCoils := None;
      onReadDiscretes := None;
      onWriteHoldingRegisters := None;
      onWriteCoils := None;
    }

    function Handlers(): Callbacks
      reads this
    {
      Callbacks(onReadHoldingRegisters, onReadInputRegisters, onReadCoils, onReadDiscretes,
                onWriteHoldingRegisters, onWriteCoils)
    }

    /** Respond: `request` is the connection's receive buffer and `requestLength` how many of its
        bytes were received. */
    method Respond(request: array<byte>, requestLength: int) returns (r: Handled<array<byte>>)
      requires 12 <= request.Length && requestLength <= request.Length
      ensures r.Faulted? <==> Reply(request[..], requestLength, Handlers()).Faulted?
      ensures r.Answered? ==> fresh(r.value) && r.value[..] == Reply(request[..], requestLength, Handlers()).value
    {
      var responseCode := IllegalFunction;
      var response := new byte[0];
      if requestLength > 8 {
        var transId := Word(request[0], request[1]);
        var protoId := Word(request[2], request[3]);
        var length := Word(request[4], request[5]);
        var unitId := request[6];
        if protoId != 0 {
          return Answered(response);
        }
        if length as int + 6 != requestLength {
          return Answered(response);
        }
        var functionCode := request[7];
        var responseBuffer: array<byte>;
        var faulted: bool;
        faulted, responseCode, responseBuffer := Switch(request, requestLength);
        if faulted {
          return Faulted;
        }
        if responseCode != Ok {
          response := GenerateExceptionResponse(transId, unitId, functionCode, responseCode);
        } else if responseBuffer.Length != 0 {
          response := GenerateResponse(transId, unitId, functionCode, responseBuffer);
        }
      }
      return Answered(response);
    }

    /** The switch of Respond, on a framed request: the response code and a fresh response
        buffer, or that a handler faulted. */
    method Switch(request: array<byte>, requestLength: int)
      returns (faulted: bool, responseCode: ExceptionCode, responseBuffer: array<byte>)
      requires 12 <= request.Length && requestLength <= request.Length
      ensures faulted <==> Dispatch(request[..], requestLength, Handlers()).Faulted?
      ensures !faulted ==>
                && fresh(responseBuffer)
                && Dispatch(request[..], requestLength, Handlers()).value == Switched(responseCode, responseBuffer[..])
    {
      var h := Handlers();
      responseCode := IllegalFunction;
      responseBuffer := new byte[0];
      faulted := false;
      var functionCode := request[7];
      var address := 65536;
      var count := 0;
      match functionCode
      case 1 =>
        if requestLength == 12 {
          address := Word(request[8], request[9]);
          count := Word(request[10], request[11]);
          faulted, responseCode, responseBuffer := ReadInto(functionCode, ReadDigitals(address, count, onReadCoils));
        }
      case 2 =>
        if requestLength == 12 {
          address := Word(request[8], request[9]);
          count := Word(request[10], request[11]);
          faulted, responseCode, responseBuffer := ReadInto(functionCode, ReadDigitals(address, count, onReadDiscretes));
        }
      case 5 =>
        if requestLength == 12 {
          address := Word(request[8], request[9]);
          var inputBuffer := request[10..12];
          faulted, responseCode, responseBuffer := WriteInto(request, WriteCoils(address, 1, Some(inputBuffer), onWriteCoils));
        }
      case 15 =>
        if requestLength > 13 {
          address := Word(request[8], request[9]);
          count := Word(request[10], request[11]);
          var byteCount := request[12];
          if requestLength == byteCount as int + 13 {
            var inputBuffer := request[13..13 + byteCount];
            faulted, responseCode, responseBuffer := WriteInto(request, WriteCoils(address, count, Some(inputBuffer), onWriteCoils));
          }
        }
      case 3 =>
        if requestLength == 12 {
          address := Word(request[8], request[9]);
          count := Word(request[10], request[11]);
          faulted, responseCode, responseBuffer := ReadInto(functionCode, ReadAnalogs(address, count, onReadHoldingRegisters));
        }
      case 4 =>
        address := Word(request[8], request[9]);
        count := Word(request[10], request[11]);
        faulted, responseCode, responseBuffer := ReadInto(functionCode, ReadAnalogs(address, count, onReadInputRegisters));
      case 6 =>
        if requestLength == 12 {
          address := Word(request[8], request[9]);
          var inputBuffer := request[10..12];
          faulted, responseCode, responseBuffer :=
            WriteInto(request, WriteHoldingRegisters(address, 1, Some(inputBuffer), onWriteHoldingRegisters));
        }
      case 16 =>
        if requestLength > 13 {
          address := Word(request[8], request[9]);
          count := Word(request[10], request[11]);
          var byteCount := request[12];
          if requestLength == byteCount as int + 13 {
            var inputBuffer := request[13..13 + byteCount];
            faulted, responseCode, responseBuffer :=
              WriteInto(request, WriteHoldingRegisters(address, count, Some(inputBuffer), onWriteHoldingRegisters));
          }
        }
      case _ =>
    }
  }

  /** A read case of the switch, over arrays: on Ok a fresh buffer holds the function code, the
      data length cut to a byte, and the data. */
  method ReadInto(functionCode: byte, read: Handled<ReadReply>)
    returns (faulted: bool, responseCode: ExceptionCode, responseBuffer: array<byte>)
    ensures faulted <==> ReadCase(functionCode, read).Faulted?
    ensures !faulted ==> fresh(responseBuffer) && ReadCase(functionCode, read).value == Switched(responseCode, responseBuffer[..])
  {
    responseBuffer := new byte[0];
    if read.Faulted? {
      return true, IllegalFunction, responseBuffer;
    }
    faulted := false;
    var responseData := read.value.data;
    responseCode := read.value.code;
    if responseCode == Ok {
      var n := |responseData|;
      responseBuffer := new byte[2 + n];
      responseBuffer[0] := functionCode;
      responseBuffer[1] := LoOfInt(n);
      var i := 0;
      while i < n
        invariant 0 <= i <= n
        invariant responseBuffer[..2] == [functionCode, LoOfInt(n)]
        invariant responseBuffer[2..2 + i] == responseData[..i]
      {
        responseBuffer[2 + i] := responseData[i];
        i := i + 1;
      }
      assert responseBuffer[..] == responseBuffer[..2] + responseBuffer[2..2 + n];
    }
  }

  /** A write case of the switch, over arrays: on Ok a fresh buffer holds bytes 7 to 11 of the
      request. */
  method WriteInto(request: array<byte>, written: Handled<ExceptionCode>)
    returns (faulted: bool, responseCode: ExceptionCode, responseBuffer: array<byte>)
    requires request.Length >= 12
    ensures faulted <==> WriteCase(request[..], written).Faulted?
    ensures !faulted ==> fresh(responseBuffer) && WriteCase(request[..], written).value == Switched(responseCode, responseBuffer[..])
  {
    responseBuffer := new byte[0];
    if written.Faulted? {
      return true, IllegalFunction, responseBuffer;
    }
    faulted := false;
    responseCode := written.value;
    if responseCode == Ok {
      responseBuffer := new byte[5];
      var i := 0;
      while i < 5
        invariant 0 <= i <= 5
        invariant responseBuffer[..i] == request[7..7 + i]
      {
        responseBuffer[i] := request[7 + i];
        i := i + 1;
      }
    }
  }
}
