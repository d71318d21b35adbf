/** The master and the slave of Kimbus against each other: a request built by the master, framed
    by the TCP transport and answered by the slave's Respond, decodes in the master to what the
    slave's callback produced; and what the master writes reaches the slave's callback intact. */
module Interop {
  import opened Codes
  import opened TryMonad
  import opened Codec
  import opened MbHelpers
  import M = MbMaster
  import F = ModbusFunctions
  import S = MbTcpSlave
  import T = MbTcpTransport

  /** A PDU framed by the master's transport is a request the slave accepts: it is framed, its
      length is the length received, and it carries the PDU from byte 7 on. */
  lemma FramedRequest(transId: ushort, unitId: byte, pdu: seq<byte>)
    requires 2 <= |pdu| && |pdu| + 1 < 0x1_0000
    ensures var request := MbapFrame(transId, unitId, pdu);
            && |request| == 7 + |pdu|
            && S.Framed(request, |request|)
            && Word(request[0], request[1]) == transId && request[6] == unitId
            && request[7..] == pdu
  {
    UnwrapFrame(transId, unitId, pdu);
  }

  /** When the switch ends with Ok and a non-empty buffer, the reply is that buffer under the
      request's ids, and the master's transport receives exactly the buffer. */
  lemma OkReplyReceived(request: seq<byte>, h: S.Callbacks, buffer: seq<byte>)
    requires |request| >= 12 && S.Framed(request, |request|)
    requires S.Dispatch(request, |request|, h) == F.Answered(S.Switched(Ok, buffer))
    requires buffer != [] && |buffer| + 1 < 0x1_0000
    ensures S.Reply(request, |request|, h).Answered?
    ensures T.ReceiveOutcome(false, S.Reply(request, |request|, h).value) == TrySuccess(buffer)
  {
    T.ReceiveFrame(Word(request[0], request[1]), request[6], buffer);
  }

  /** When the switch ends with another code, the master's transport receives the exception PDU. */
  lemma ErrorReplyReceived(request: seq<byte>, h: S.Callbacks, code: ExceptionCode)
    requires |request| >= 12 && S.Framed(request, |request|)
    requires S.Dispatch(request, |request|, h).Answered? && S.Dispatch(request, |request|, h).value.code == code
    requires code != Ok
    ensures S.Reply(request, |request|, h).Answered?
    ensures T.ReceiveOutcome(false, S.Reply(request, |request|, h).value) ==
            TrySuccess([SetHighBit(request[7]), code.ToByte()])
  {
    T.ReceiveFrame(Word(request[0], request[1]), request[6], [SetHighBit(request[7]), code.ToByte()]);
  }

  /** The PDU a slave sends for a register read that ends with `answer`: the function code, the
      byte count and the registers high byte first, or the exception reply. */
  function AnalogPdu(functionCode: byte, answer: Outcome<seq<ushort>>): (pdu: seq<byte>)
    requires answer.Throws? ==> answer.error.MbError?
    ensures |pdu| >= 2
  {
    match answer
    case Returns(values) =>
      var data := WordsToBytes(values);
      [functionCode, LoOfInt(|data|)] + data
    case Throws(e) => [SetHighBit(functionCode), e.code]
  }

  /** The PDU a slave sends for a coil or input read that ends with `answer`: the function code,
      the byte count and the coils packed eight to a byte, or the exception reply. */
  function DiscretePdu(functionCode: byte, answer: Outcome<seq<bool>>): (pdu: seq<byte>)
    requires answer.Throws? ==> answer.error.MbError?
    ensures |pdu| >= 2
  {
    match answer
    case Returns(values) =>
      var data := PackBits(values);
      [functionCode, LoOfInt(|data|)] + data
    case Throws(e) => [SetHighBit(functionCode), e.code]
  }

  /** A length below 256 fits its low byte. */
  lemma SmallLength(x: int)
    requires 0 <= x < 256
    ensures LoOfInt(x) as int == x
  {
  }

  /** The master decodes the slave's reply to a register read back into what the slave answered:
      the registers, or the exception. */
  lemma AnalogPduDecodes(fun: FunctionCode, count: ushort, answer: Outcome<seq<ushort>>)
    requires 1 <= count <= F.MaxReadRegisters
    requires answer.Returns? ==> |answer.value| == count
    requires answer.Throws? ==> answer.error.MbError?
    ensures M.UnwrapAnalogPdu(fun, count, AnalogPdu(fun.ToByte(), answer)) == answer
  {
    if answer.Returns? {
      var data := WordsToBytes(answer.value);
      var reply := AnalogPdu(fun.ToByte(), answer);
      SmallLength(|data|);
      assert reply[2..] == data;
      assert M.CheckReadResponsePduHeader(fun, 2 * count, reply).None?;
      WordsRoundTrip(answer.value);
    }
  }

  /** The master decodes the slave's reply to a coil or input read back into what the slave
      answered: the coils, or the exception. */
  lemma DiscretePduDecodes(fun: FunctionCode, count: ushort, answer: Outcome<seq<bool>>)
    requires 1 <= count <= F.MaxReadBits
    requires answer.Returns? ==> |answer.value| == count
    requires answer.Throws? ==> answer.error.MbError?
    ensures M.UnwrapDiscretePdu(fun, count, DiscretePdu(fun.ToByte(), answer)) == answer
  {
    if answer.Returns? {
      var data := PackBits(answer.value);
      var reply := DiscretePdu(fun.ToByte(), answer);
      SmallLength(|data|);
      assert reply[2..] == data;
      assert M.CheckReadResponsePduHeader(fun, Ceil8(count), reply).None?;
      UnpackPackedBits(answer.value);
    }
  }

  /** What a master's read ends with when the slave's callback returns `call`: the values, when
      the callback answers Ok with exactly `count` of them; otherwise the exception the slave
      reports, which is the callback's own code, or a device failure for values that are missing
      or miscounted or for a callback that throws with an inner exception. */
  function ReadAnswer<T>(call: F.ReadCall<T>, count: int): (r: Outcome<seq<T>>)
    ensures r.Returns? <==> call.ReadReturned? && call.code == Ok && call.values.Some? && |call.values.value| == count
    ensures r.Returns? ==> r.value == call.values.value
    ensures r.Throws? ==> r.error.MbError? && r.error.code != 0
  {
    if call.ReadThrew? then Throws(MbError(SlaveDeviceFailure.ToByte()))
    else if call.code != Ok then Throws(MbError(call.code.ToByte()))
    else if call.values.None? || |call.values.value| != count then Throws(MbError(SlaveDeviceFailure.ToByte()))
    else Returns(call.values.value)
  }

  /** The slave's view of a read request: 12 bytes, framed, with the function code, address and
      quantity at bytes 7 to 11. */
  predicate ReadRequest(request: seq<byte>, functionCode: byte, address: ushort, count: int)
  {
    && |request| == 12 && S.Framed(request, 12)
    && request[7] == functionCode
    && Word(request[8], request[9]) == address && Word(request[10], request[11]) == count
  }

  /** A read request the master builds, framed by its transport, is a 12-byte request the slave
      accepts, carrying the function code, address and quantity asked for. */
  lemma ReadRequestFramed(transId: ushort, unitId: byte, fun: FunctionCode, address: ushort, count: ushort)
    requires M.CreateReadPdu(fun, address, count).Returns?
    ensures ReadRequest(MbapFrame(transId, unitId, M.CreateReadPdu(fun, address, count).value), fun.ToByte(), address, count)
  {
    var pdu := M.CreateReadPdu(fun, address, count).value;
    assert |pdu| == 5;
    ShortRequestFramed(transId, unitId, pdu);
  }

  /** A five-byte PDU framed by the master's transport is a 12-byte request the slave accepts,
      with the PDU in bytes 7 to 11. */
  lemma ShortRequestFramed(transId: ushort, unitId: byte, pdu: seq<byte>)
    requires |pdu| == 5
    ensures var request := MbapFrame(transId, unitId, pdu);
            && |request| == 12 && S.Framed(request, 12)
            && request[7] == pdu[0] && request[8] == pdu[1] && request[9] == pdu[2]
            && request[10] == pdu[3] && request[11] == pdu[4]
  {
    FramedRequest(transId, unitId, pdu);
    var request := MbapFrame(transId, unitId, pdu);
    forall k | 0 <= k < 5 ensures request[7 + k] == pdu[k] {
      assert request[7..][k] == request[7 + k];
    }
  }

  /** The exception code a slave reports for a read whose callback returns `call`, when it does
      not answer with the values. */
  function ReadErrorCode<T>(call: F.ReadCall<T>): ExceptionCode
  {
    if call.ReadReturned? && call.code != Ok then call.code else SlaveDeviceFailure
  }

  /** The read case for registers: the PDU of the answer ReadAnswer describes when the callback
      answers with the values, and the code ReadErrorCode gives otherwise. */
  lemma AnalogReadSwitched(functionCode: byte, address: ushort, count: ushort,
                           onRead: Option<(ushort, ushort) -> F.ReadCall<ushort>>, call: F.ReadCall<ushort>)
    requires 1 <= count <= F.MaxReadRegisters
    requires onRead.Some? && onRead.value(address, count) == call
    requires call.ReadThrew? ==> call.hasInner
    ensures var answer := ReadAnswer(call, count);
            && S.ReadCase(functionCode, F.ReadAnalogs(address, count, onRead)) ==
               (if answer.Returns? then F.Answered(S.Switched(Ok, AnalogPdu(functionCode, answer)))
                else F.Answered(S.Switched(ReadErrorCode(call), [])))
            && (answer.Throws? ==> AnalogPdu(functionCode, answer) == [SetHighBit(functionCode), ReadErrorCode(call).ToByte()])
  {
    var answer := ReadAnswer(call, count);
    if answer.Returns? {
      F.ReadAnalogsReply(address, count, onRead.value, answer.value);
    } else {
      assert F.ReadAnalogs(address, count, onRead) == F.Answered(F.ReadReply([], ReadErrorCode(call)));
    }
  }

  /** The read case for coils or discrete inputs: the PDU of the answer ReadAnswer describes when
      the callback answers with the values, and the code ReadErrorCode gives otherwise. */
  lemma DiscreteReadSwitched(functionCode: byte, address: ushort, count: ushort,
                             onRead: Option<(ushort, ushort) -> F.ReadCall<bool>>, call: F.ReadCall<bool>)
    requires 1 <= count <= F.MaxReadBits
    requires onRead.Some? && onRead.value(address, count) == call
    requires call.ReadThrew? ==> call.hasInner
    ensures var answer := ReadAnswer(call, count);
            && S.ReadCase(functionCode, F.ReadDigitals(address, count, onRead)) ==
               (if answer.Returns? then F.Answered(S.Switched(Ok, DiscretePdu(functionCode, answer)))
                else F.Answered(S.Switched(ReadErrorCode(call), [])))
            && (answer.Throws? ==> DiscretePdu(functionCode, answer) == [SetHighBit(functionCode), ReadErrorCode(call).ToByte()])
  {
    var answer := ReadAnswer(call, count);
    if answer.Returns? {
      F.ReadDigitalsReply(address, count, onRead.value, answer.value);
    } else {
      assert F.ReadDigitals(address, count, onRead) == F.Answered(F.ReadReply([], ReadErrorCode(call)));
    }
  }

  /** A request to read registers (function code 3 or 4), whose callback answers without
      throwing an exception that has no inner one, reaches the master's transport as the PDU of
      the answer ReadAnswer describes. */
  lemma SlaveAnswersAnalogRead(request: seq<byte>, functionCode: byte, address: ushort, count: ushort,
                               h: S.Callbacks, call: F.ReadCall<ushort>)
    requires functionCode in {3, 4} && ReadRequest(request, functionCode, address, count)
    requires 1 <= count <= F.MaxReadRegisters
    requires var onRead := if functionCode == 3 then h.onReadHoldingRegisters else h.onReadInputRegisters;
             onRead.Some? && onRead.value(address, count) == call
    requires call.ReadThrew? ==> call.hasInner
    ensures S.Reply(request, |request|, h).Answered?
    ensures T.ReceiveOutcome(false, S.Reply(request, |request|, h).value) ==
            TrySuccess(AnalogPdu(functionCode, ReadAnswer(call, count)))
  {
    var onRead := if functionCode == 3 then h.onReadHoldingRegisters else h.onReadInputRegisters;
    var answer := ReadAnswer(call, count);
    AnalogReadSwitched(functionCode, address, count, onRead, call);
    assert S.Dispatch(request, 12, h) == S.ReadCase(functionCode, F.ReadAnalogs(address, count, onRead));
    if answer.Returns? {
      OkReplyReceived(request, h, AnalogPdu(functionCode, answer));
    } else {
      ErrorReplyReceived(request, h, ReadErrorCode(call));
    }
  }

  /** Reading registers end to end: a read the master builds, answered by a slave whose callback
      returns `call`, ends in the master with the callback's registers when it answers Ok with
      exactly `count` of them, and otherwise with the exception the slave reports. */
  lemma ReadRegistersRoundTrip(transId: ushort, unitId: byte, fun: FunctionCode, address: ushort, count: ushort,
                               h: S.Callbacks, call: F.ReadCall<ushort>)
    requires fun == ReadHoldingRegisters || fun == ReadInputRegisters
    requires 1 <= count <= M.MaxReadRegisters
    requires var onRead := if fun == ReadHoldingRegisters then h.onReadHoldingRegisters else h.onReadInputRegisters;
             onRead.Some? && onRead.value(address, count) == call
    requires call.ReadThrew? ==> call.hasInner
    ensures M.CreateReadPdu(fun, address, count).Returns?
    ensures var request := MbapFrame(transId, unitId, M.CreateReadPdu(fun, address, count).value);
            var reply := S.Reply(request, |request|, h);
            && reply.Answered?
            && T.ReceiveOutcome(false, reply.value).IsSuccess()
            && M.UnwrapAnalogPdu(fun, count, T.ReceiveOutcome(false, reply.value).success) == ReadAnswer(call, count)
  {
    AnalogPduDecodes(fun, count, ReadAnswer(call, count));
    ReadRequestFramed(transId, unitId, fun, address, count);
    var request := MbapFrame(transId, unitId, M.CreateReadPdu(fun, address, count).value);
    assert fun.ToByte() == 3 <==> fun == ReadHoldingRegisters;
    SlaveAnswersAnalogRead(request, fun.ToByte(), address, count, h, call);
  }

  /** A request to read coils or discrete inputs (function code 1 or 2), whose callback answers
      without throwing an exception that has no inner one, reaches the master's transport as the
      PDU of the answer ReadAnswer describes. */
  lemma SlaveAnswersDiscreteRead(request: seq<byte>, functionCode: byte, address: ushort, count: ushort,
                                 h: S.Callbacks, call: F.ReadCall<bool>)
    requires functionCode in {1, 2} && ReadRequest(request, functionCode, address, count)
    requires 1 <= count <= F.MaxReadBits
    requires var onRead := if functionCode == 1 then h.onReadCoils else h.onReadDiscretes;
             onRead.Some? && onRead.value(address, count) == call
    requires call.ReadThrew? ==> call.hasInner
    ensures S.Reply(request, |request|, h).Answered?
    ensures T.ReceiveOutcome(false, S.Reply(request, |request|, h).value) ==
            TrySuccess(DiscretePdu(functionCode, ReadAnswer(call, count)))
  {
    var onRead := if functionCode == 1 then h.onReadCoils else h.onReadDiscretes;
    var answer := ReadAnswer(call, count);
    DiscreteReadSwitched(functionCode, address, count, onRead, call);
    assert S.Dispatch(request, 12, h) == S.ReadCase(functionCode, F.ReadDigitals(address, count, onRead));
    if answer.Returns? {
      OkReplyReceived(request, h, DiscretePdu(functionCode, answer));
    } else {
      ErrorReplyReceived(request, h, ReadErrorCode(call));
    }
  }

  /** Reading coils or discrete inputs end to end: a read the master builds, answered by a slave
      whose callback returns `call`, ends in the master with the callback's values when it
      answers Ok with exactly `count` of them, and otherwise with the exception the slave
      reports. */
  lemma ReadCoilsRoundTrip(transId: ushort, unitId: byte, fun: FunctionCode, address: ushort, count: ushort,
                           h: S.Callbacks, call: F.ReadCall<bool>)
    requires fun == ReadCoils || fun == ReadDiscreteInputs
    requires 1 <= count <= M.MaxReadBits
    requires var onRead := if fun == ReadCoils then h.onReadCoils else h.onReadDiscretes;
             onRead.Some? && onRead.value(address, count) == call
    requires call.ReadThrew? ==> call.hasInner
    ensures M.CreateReadPdu(fun, address, count).Returns?
    ensures var request := MbapFrame(transId, unitId, M.CreateReadPdu(fun, address, count).value);
            var reply := S.Reply(request, |request|, h);
            && reply.Answered?
            && T.ReceiveOutcome(false, reply.value).IsSuccess()
            && M.UnwrapDiscretePdu(fun, count, T.ReceiveOutcome(false, reply.value).success) == ReadAnswer(call, count)
  {
    DiscretePduDecodes(fun, count, ReadAnswer(call, count));
    ReadRequestFramed(transId, unitId, fun, address, count);
    var request := MbapFrame(transId, unitId, M.CreateReadPdu(fun, address, count).value);
    assert fun.ToByte() == 1 <==> fun == ReadCoils;
    SlaveAnswersDiscreteRead(request, fun.ToByte(), address, count, h, call);
  }

  /** The code a slave answers a write with when its callback returns `call` (a callback that
      throws with an inner exception is reported as a device failure). */
  function WriteAnswerCode(call: F.WriteCall): ExceptionCode
  {
    match call
    case WriteReturned(code) => code
    case WriteThrew(_) => SlaveDeviceFailure
  }

  /** The slave's view of a multiple-write request: framed, its byte count (byte 12) accounting
      for every byte after the thirteenth, function code, address and quantity at bytes 7 to 11,
      and `data` from byte 13 on. */
  predicate WriteRequest(request: seq<byte>, functionCode: byte, address: ushort, count: int, data: seq<byte>)
  {
    && |request| > 13 && S.Framed(request, |request|) && |request| == request[12] as int + 13
    && request[7] == functionCode
    && Word(request[8], request[9]) == address && Word(request[10], request[11]) == count
    && request[13..] == data
  }

  /** A multiple-write PDU framed by the master's transport is a request the slave accepts, with
      the PDU's function code, address, quantity and data. */
  lemma WriteRequestFramed(transId: ushort, unitId: byte, pdu: seq<byte>, functionCode: byte, address: ushort, count: int)
    requires 7 <= |pdu| < 0x1_0000 - 1 && pdu[5] as int == |pdu| - 6
    requires pdu[0] == functionCode && Word(pdu[1], pdu[2]) == address && Word(pdu[3], pdu[4]) == count
    ensures WriteRequest(MbapFrame(transId, unitId, pdu), functionCode, address, count, pdu[6..])
  {
    FramedRequest(transId, unitId, pdu);
    var request := MbapFrame(transId, unitId, pdu);
    forall k | 0 <= k < 6 ensures request[7 + k] == pdu[k] {
      assert request[7..][k] == request[7 + k];
    }
    assert request[13..] == request[7..][6..];
  }

  /** The echo or exception reply a slave's write case sends reaches the master's transport. */
  lemma WriteReplyReceived(request: seq<byte>, h: S.Callbacks, code: ExceptionCode)
    requires |request| >= 12 && S.Framed(request, |request|)
    requires S.Dispatch(request, |request|, h) == F.Answered(S.Switched(code, if code == Ok then request[7..12] else []))
    ensures S.Reply(request, |request|, h).Answered?
    ensures T.ReceiveOutcome(false, S.Reply(request, |request|, h).value) ==
            TrySuccess(if code == Ok then request[7..12] else [SetHighBit(request[7]), code.ToByte()])
  {
    if code == Ok {
      OkReplyReceived(request, h, request[7..12]);
    } else {
      ErrorReplyReceived(request, h, code);
    }
  }

  /** What the master makes of the slave's answer to a multiple write of `n` values: the echo of
      the request is accepted only when `n` is below 256, since the check ORs the two quantity
      bytes together; an exception reply raises its code. */
  lemma EchoDecodes(fun: FunctionCode, request: seq<byte>, address: ushort, n: ushort, code: ExceptionCode)
    requires fun.ToByte() < 0x80
    requires |request| >= 12 && request[7] == fun.ToByte()
    requires Word(request[8], request[9]) == address && Word(request[10], request[11]) == n
    ensures M.CheckWriteMultipleResponse(if code == Ok then request[7..12] else [SetHighBit(request[7]), code.ToByte()],
                                         fun, address, n) ==
            if code != Ok then Throws(MbError(code.ToByte()))
            else if n < 256 then Returns(true)
            else Throws(Mismatch)
  {
    if code == Ok {
      var echo := request[7..12];
      assert echo[0] == request[7] && echo[1] == request[8] && echo[2] == request[9] && echo[3] == request[10] && echo[4] == request[11];
      HalvesOfWord(echo[1], echo[2]);
      HalvesOfWord(echo[3], echo[4]);
      assert echo == [fun.ToByte(), Hi(address), Lo(address), Hi(n), Lo(n)];
      M.FaithfulEchoAccepted(fun, address, n);
    }
  }

  /** WriteHoldingRegisters given registers packed high byte first answers with the code of the
      callback that receives them. */
  lemma RegistersWritten(address: ushort, values: seq<ushort>, f: (ushort, seq<ushort>) -> F.WriteCall, call: F.WriteCall)
    requires 1 <= |values| <= F.MaxWriteRegisters
    requires f(address, values) == call && (call.WriteThrew? ==> call.hasInner)
    ensures F.WriteHoldingRegisters(address, |values|, Some(WordsToBytes(values)), Some(f)) == F.Answered(WriteAnswerCode(call))
  {
    F.WriteRegistersUnpacks(address, values, f);
  }

  /** WriteCoils given coils packed eight to a byte answers with the code of the callback that
      receives them. */
  lemma CoilsWritten(address: ushort, values: seq<bool>, f: (ushort, seq<bool>) -> F.WriteCall, call: F.WriteCall)
    requires 1 <= |values| <= F.MaxWriteBits
    requires f(address, values) == call && (call.WriteThrew? ==> call.hasInner)
    ensures F.WriteCoils(address, |values|, Some(PackBits(values)), Some(f)) == F.Answered(WriteAnswerCode(call))
  {
    UnpackPackedBits(values);
    assert F.WriteCoilsStep(address, |values|, Some(PackBits(values)), Some(f)) == F.Called(call);
  }

  /** The switch sends a multiple-register write request to WriteHoldingRegisters. */
  lemma RegisterWriteDispatched(request: seq<byte>, address: ushort, count: int, data: seq<byte>, h: S.Callbacks)
    requires WriteRequest(request, 16, address, count, data)
    ensures S.Dispatch(request, |request|, h) ==
            S.WriteCase(request, F.WriteHoldingRegisters(address, count, Some(data), h.onWriteHoldingRegisters))
  {
    assert request[13..|request|] == data;
  }

  /** The switch sends a multiple-coil write request to WriteCoils. */
  lemma CoilWriteDispatched(request: seq<byte>, address: ushort, count: int, data: seq<byte>, h: S.Callbacks)
    requires WriteRequest(request, 15, address, count, data)
    ensures S.Dispatch(request, |request|, h) ==
            S.WriteCase(request, F.WriteCoils(address, count, Some(data), h.onWriteCoils))
  {
    assert request[13..|request|] == data;
  }

  /** A multiple-register write carrying `values` high byte first reaches the callback with
      `values`; the callback's code comes back as the echo of the request or as the exception
      reply. */
  lemma SlaveAnswersRegisterWrite(request: seq<byte>, address: ushort, values: seq<ushort>, data: seq<byte>,
                                  h: S.Callbacks, call: F.WriteCall)
    requires 1 <= |values| <= F.MaxWriteRegisters
    requires WriteRequest(request, 16, address, |values|, data) && data == WordsToBytes(values)
    requires h.onWriteHoldingRegisters.Some? && h.onWriteHoldingRegisters.value(address, values) == call
    requires call.WriteThrew? ==> call.hasInner
    ensures S.Reply(request, |request|, h).Answered?
    ensures var code := WriteAnswerCode(call);
            T.ReceiveOutcome(false, S.Reply(request, |request|, h).value) ==
            TrySuccess(if code == Ok then request[7..12] else [SetHighBit(16), code.ToByte()])
  {
    RegistersWritten(address, values, h.onWriteHoldingRegisters.value, call);
    RegisterWriteDispatched(request, address, |values|, data, h);
    WriteReplyReceived(request, h, WriteAnswerCode(call));
  }

  /** A multiple-coil write carrying `values` packed eight to a byte reaches the callback with
      `values`; the callback's code comes back as the echo of the request or as the exception
      reply. */
  lemma SlaveAnswersCoilWrite(request: seq<byte>, address: ushort, values: seq<bool>, data: seq<byte>,
                              h: S.Callbacks, call: F.WriteCall)
    requires 1 <= |values| <= F.MaxWriteBits
    requires WriteRequest(request, 15, address, |values|, data) && data == PackBits(values)
    requires h.onWriteCoils.Some? && h.onWriteCoils.value(address, values) == call
    requires call.WriteThrew? ==> call.hasInner
    ensures S.Reply(request, |request|, h).Answered?
    ensures var code := WriteAnswerCode(call);
            T.ReceiveOutcome(false, S.Reply(request, |request|, h).value) ==
            TrySuccess(if code == Ok then request[7..12] else [SetHighBit(15), code.ToByte()])
  {
    CoilsWritten(address, values, h.onWriteCoils.value, call);
    CoilWriteDispatched(request, address, |values|, data, h);
    WriteReplyReceived(request, h, WriteAnswerCode(call));
  }

  /** Writing registers end to end: the slave's callback receives the registers the master
      wrote, and the master accepts the slave's echo when the callback answers Ok, or raises the
      exception the slave reports. */
  lemma WriteRegistersRoundTrip(transId: ushort, unitId: byte, address: ushort, values: seq<ushort>,
                                h: S.Callbacks, call: F.WriteCall)
    requires 1 <= |values| <= M.MaxWriteRegisters
    requires h.onWriteHoldingRegisters.Some? && h.onWriteHoldingRegisters.value(address, values) == call
    requires call.WriteThrew? ==> call.hasInner
    ensures M.CreateWriteMultipleRegistersPdu(address, Some(values)).Returns?
    ensures var request := MbapFrame(transId, unitId, M.CreateWriteMultipleRegistersPdu(address, Some(values)).value);
            var reply := S.Reply(request, |request|, h);
            && reply.Answered?
            && T.ReceiveOutcome(false, reply.value).IsSuccess()
            && M.CheckWriteMultipleResponse(T.ReceiveOutcome(false, reply.value).success, WriteMultipleRegisters, address, |values|) ==
               if WriteAnswerCode(call) == Ok then Returns(true) else Throws(MbError(WriteAnswerCode(call).ToByte()))
  {
    M.WriteMultipleRegistersLayout(address, values);
    M.WriteMultipleRegistersData(address, values);
    var pdu := M.CreateWriteMultipleRegistersPdu(address, Some(values)).value;
    WriteRequestFramed(transId, unitId, pdu, 16, address, |values|);
    var request := MbapFrame(transId, unitId, pdu);
    EchoDecodes(WriteMultipleRegisters, request, address, |values|, WriteAnswerCode(call));
    SlaveAnswersRegisterWrite(request, address, values, pdu[6..], h, call);
  }

  /** Writing coils end to end: the slave's callback receives the coils the master wrote; when
      it answers Ok the master accepts the echo only for fewer than 256 coils (the quantity bytes
      are OR-ed together), and otherwise raises the exception the slave reports. */
  lemma WriteCoilsRoundTrip(transId: ushort, unitId: byte, address: ushort, values: seq<bool>,
                            h: S.Callbacks, call: F.WriteCall)
    requires 1 <= |values| <= M.MaxWriteBits
    requires h.onWriteCoils.Some? && h.onWriteCoils.value(address, values) == call
    requires call.WriteThrew? ==> call.hasInner
    ensures M.CreateWriteMultipleCoilsPdu(address, Some(values)).Returns?
    ensures var request := MbapFrame(transId, unitId, M.CreateWriteMultipleCoilsPdu(address, Some(values)).value);
            var reply := S.Reply(request, |request|, h);
            && reply.Answered?
            && T.ReceiveOutcome(false, reply.value).IsSuccess()
            && M.CheckWriteMultipleResponse(T.ReceiveOutcome(false, reply.value).success, WriteMultipleCoils, address, |values|) ==
               if WriteAnswerCode(call) != Ok then Throws(MbError(WriteAnswerCode(call).ToByte()))
               else if |values| < 256 then Returns(true)
               else Throws(Mismatch)
  {
    M.WriteMultipleCoilsLayout(address, values);
    var pdu := M.CreateWriteMultipleCoilsPdu(address, Some(values)).value;
    WriteRequestFramed(transId, unitId, pdu, 15, address, |values|);
    var request := MbapFrame(transId, unitId, pdu);
    EchoDecodes(WriteMultipleCoils, request, address, |values|, WriteAnswerCode(call));
    SlaveAnswersCoilWrite(request, address, values, pdu[6..], h, call);
  }
}
