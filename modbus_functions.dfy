/** The request handlers of the slave (Kimbus.Slave.ModbusFunctions in the Kimbus project): count
    and length checks, the calls into the user's callbacks, bit and word packing, and the
    assembly of normal and exception replies. A user callback is a function from its arguments
    to what calling it does; an absent (null) callback is `None`. */
module ModbusFunctions {
  import opened Codes
  import opened Codec
  import opened EnumerableExtensions
  import opened MbHelpers

  /** What calling a read callback does: it returns values (null is `None`) and a code, or it
      throws an exception that does or does not carry an inner exception. */
  datatype ReadCall<T> = ReadReturned(values: Option<seq<T>>, code: ExceptionCode) | ReadThrew(hasInner: bool)

  /** What calling a write callback does. */
  datatype WriteCall = WriteReturned(code: ExceptionCode) | WriteThrew(hasInner: bool)

  /** The data and the code a read handler answers with. */
  datatype ReadReply = ReadReply(data: seq<byte>, code: ExceptionCode)

  /** How the guarded part of a handler ends: with a value, or with the callback throwing. */
  datatype Step<T> = Done(value: T) | CallbackThrew(hasInner: bool)

  /** A handler's answer, or the handler itself faulting: its exception escapes. */
  datatype Handled<T> = Answered(value: T) | Faulted

  /** Largest quantity of coils or discrete inputs one read may ask for. */
  const MaxReadBits := 0x07d0
  /** Largest quantity of registers one read may ask for. */
  const MaxReadRegisters := 0x007d
  /** Largest quantity of coils one write may carry. */
  const MaxWriteBits := 0x07b0
  /** Largest quantity of registers one write may carry. */
  const MaxWriteRegisters := 0x007b

  /** The C# cast `(ushort)x`: the low 16 bits in two's complement. */
  function ToUshort(x: int): (r: ushort)
    ensures 0 <= x < 0x1_0000 ==> r == x
  {
    x % 0x1_0000
  }

  /** The guarded part of Read<T>: an absent callback is an illegal function, a quantity outside
      [1, maxCount] an illegal data value and the callback is not called; a code other than Ok
      from the callback is passed on; values that are missing or not exactly `count` long are a
      device failure; otherwise the values are unpacked into the reply data. `maxCount` is what
      `typeof(T) == typeof(bool)` selects. */
  function ReadStep<T>(address: int, count: int, onRead: Option<(ushort, ushort) -> ReadCall<T>>,
                       maxCount: nat, unpack: seq<T> -> seq<byte>): (r: Step<ReadReply>)
    requires maxCount < 0x1_0000
    ensures onRead.None? ==> r == Done(ReadReply([], IllegalFunction))
    ensures onRead.Some? && (count < 1 || count > maxCount) ==> r == Done(ReadReply([], IllegalDataValue))
    ensures onRead.Some? && 1 <= count <= maxCount ==>
              var call := onRead.value(ToUshort(address), count);
              && (call.ReadReturned? && call.code != Ok ==> r == Done(ReadReply([], call.code)))
              && (call.ReadReturned? && call.code == Ok && (call.values.None? || |call.values.value| != count) ==>
                    r == Done(ReadReply([], SlaveDeviceFailure)))
    ensures r.Done? && r.value.code != Ok ==> r.value.data == []
    ensures r.Done? && r.value.code == Ok ==>
              && onRead.Some? && 1 <= count <= maxCount
              && var call := onRead.value(ToUshort(address), count);
                 && call.ReadReturned? && call.code == Ok && call.values.Some? && |call.values.value| == count
                 && r.value.data == unpack(call.values.value)
    ensures r.CallbackThrew? ==>
              onRead.Some? && 1 <= count <= maxCount && onRead.value(ToUshort(address), count) == ReadThrew(r.hasInner)
  {
    if onRead.None? then Done(ReadReply([], IllegalFunction))
    else if count < 1 || count > maxCount then Done(ReadReply([], IllegalDataValue))
    else
      match onRead.value(ToUshort(address), count)
      case ReadThrew(hasInner) => CallbackThrew(hasInner)
      case ReadReturned(values, code) =>
        if code != Ok then Done(ReadReply([], code))
        else if values.None? || |values.value| == 0 || |values.value| != count then Done(ReadReply([], SlaveDeviceFailure))
        else Done(ReadReply(unpack(values.value), Ok))
  }

  /** A quantity out of range is refused before the callback is consulted: the answer does not
      depend on the callback at all. */
  lemma ReadIgnoresCallbackOutOfRange<T>(address: int, count: int, f: (ushort, ushort) -> ReadCall<T>,
                                         g: (ushort, ushort) -> ReadCall<T>, maxCount: nat, unpack: seq<T> -> seq<byte>)
    requires maxCount < 0x1_0000
    requires count < 1 || count > maxCount
    ensures ReadStep(address, count, Some(f), maxCount, unpack) == ReadStep(address, count, Some(g), maxCount, unpack)
            == Done(ReadReply([], IllegalDataValue))
  {
  }

  /** The catch block of this project's handlers. Its message is built as
      `"..." + ex.InnerException != null ? ... ex.InnerException.Message : ...`, which C# reads as
      `("..." + ex.InnerException) != null ? ...`: the test always holds, so an exception without
      an inner exception makes the handler itself throw. Only with an inner exception does the
      handler answer with `failure`. */
  function Handle<T>(step: Step<T>, failure: T): (r: Handled<T>)
    ensures step.Done? ==> r == Answered(step.value)
    ensures step.CallbackThrew? ==> (r.Answered? <==> step.hasInner)
    ensures step.CallbackThrew? && r.Answered? ==> r.value == failure
  {
    match step
    case Done(v) => Answered(v)
    case CallbackThrew(hasInner) => if hasInner then Answered(failure) else Faulted
  }

  /** Read<T>: the guarded part under this project's exception handler. The handler faults
      exactly when the callback throws without an inner exception; it answers Ok only with the
      unpacked values of a callback that returned Ok and exactly `count` values; any other answer
      carries no data, and a callback throwing with an inner exception is a device failure. */
  function Read<T>(address: int, count: int, onRead: Option<(ushort, ushort) -> ReadCall<T>>,
                   maxCount: nat, unpack: seq<T> -> seq<byte>): (r: Handled<ReadReply>)
    requires maxCount < 0x1_0000
    ensures r.Faulted? <==>
              onRead.Some? && 1 <= count <= maxCount && onRead.value(ToUshort(address), count) == ReadThrew(false)
    ensures onRead.Some? && 1 <= count <= maxCount && onRead.value(ToUshort(address), count) == ReadThrew(true) ==>
              r == Answered(ReadReply([], SlaveDeviceFailure))
    ensures onRead.Some? && 1 <= count <= maxCount ==>
              var call := onRead.value(ToUshort(address), count);
              && (call.ReadReturned? && call.code != Ok ==> r == Answered(ReadReply([], call.code)))
              && (call.ReadReturned? && call.code == Ok && (call.values.None? || |call.values.value| != count) ==>
                    r == Answered(ReadReply([], SlaveDeviceFailure)))
    ensures r.Answered? && r.value.code == Ok ==>
              && onRead.Some? && 1 <= count <= maxCount
              && var call := onRead.value(ToUshort(address), count);
                 && call.ReadReturned? && call.code == Ok && call.values.Some? && |call.values.value| == count
                 && r.value.data == unpack(call.values.value)
    ensures r.Answered? && r.value.code != Ok ==> r.value.data == []
  {
    Handle(ReadStep(address, count, onRead, maxCount, unpack), ReadReply([], SlaveDeviceFailure))
  }

  /** A callback that throws without an inner exception makes Read fault instead of answering
      with a device failure. */
  lemma ReadFaultsWithoutInner<T>(address: int, count: int, f: (ushort, ushort) -> ReadCall<T>,
                                  maxCount: nat, unpack: seq<T> -> seq<byte>)
    requires maxCount < 0x1_0000 && 1 <= count <= maxCount
    requires f(ToUshort(address), count) == ReadThrew(false)
    ensures Read(address, count, Some(f), maxCount, unpack) == Faulted
  {
  }

  /** ReadDigitals: coils or discrete inputs, packed eight to a byte. An Ok answer holds
      ceil(count / 8) bytes from which the callback's `count` values unpack again. */
  function ReadDigitals(address: int, count: int, onRead: Option<(ushort, ushort) -> ReadCall<bool>>): (r: Handled<ReadReply>)
    ensures r.Faulted? <==>
              onRead.Some? && 1 <= count <= MaxReadBits && onRead.value(ToUshort(address), count) == ReadThrew(false)
    ensures r.Answered? && r.value.code == Ok ==>
              && onRead.Some? && 1 <= count <= MaxReadBits && |r.value.data| == Ceil8(count)
              && var call := onRead.value(ToUshort(address), count);
                 && call.ReadReturned? && call.code == Ok && call.values.Some? && |call.values.value| == count
                 && BitsOf(r.value.data, count) == call.values.value
  {
    var r := Read(address, count, onRead, MaxReadBits, PackBits);
    if r.Answered? && r.value.code == Ok then
      UnpackPackedBits(onRead.value(ToUshort(address), count).values.value);
      r
    else r
  }

  /** ReadAnalogs: registers, two big-endian bytes each. An Ok answer holds 2 * count bytes that
      read back as the callback's `count` values. */
  function ReadAnalogs(address: int, count: int, onRead: Option<(ushort, ushort) -> ReadCall<ushort>>): (r: Handled<ReadReply>)
    ensures r.Faulted? <==>
              onRead.Some? && 1 <= count <= MaxReadRegisters && onRead.value(ToUshort(address), count) == ReadThrew(false)
    ensures r.Answered? && r.value.code == Ok ==>
              && onRead.Some? && 1 <= count <= MaxReadRegisters && |r.value.data| == 2 * count
              && var call := onRead.value(ToUshort(address), count);
                 && call.ReadReturned? && call.code == Ok && call.values.Some? && |call.values.value| == count
                 && BytesToWords(r.value.data) == call.values.value
  {
    var r := Read(address, count, onRead, MaxReadRegisters, WordsToBytes);
    if r.Answered? && r.value.code == Ok then
      WordsRoundTrip(onRead.value(ToUshort(address), count).values.value);
      r
    else r
  }

  /** A successful bit read answers with ceil(count / 8) bytes; value i is bit i mod 8 of byte
      i div 8 and the bits past the last value are clear. */
  lemma ReadDigitalsReply(address: int, count: int, f: (ushort, ushort) -> ReadCall<bool>, values: seq<bool>)
    requires 1 <= count <= MaxReadBits && |values| == count
    requires f(ToUshort(address), count) == ReadReturned(Some(values), Ok)
    ensures ReadDigitals(address, count, Some(f)) == Answered(ReadReply(PackBits(values), Ok))
    ensures |PackBits(values)| == Ceil8(count)
    ensures forall i :: 0 <= i < count ==> Bit(PackBits(values)[i / 8], i % 8) == values[i]
    ensures forall i :: count <= i < 8 * Ceil8(count) ==> !Bit(PackBits(values)[i / 8], i % 8)
  {
    PackBitsAt(values);
    var bytes := PackBits(values);
    forall i | 0 <= i < 8 * Ceil8(count)
      ensures Bit(bytes[i / 8], i % 8) == (i < count && values[i])
    {
      assert 8 * (i / 8) + i % 8 == i;
    }
  }

  /** A successful register read answers with 2 * count bytes, each value high byte first. */
  lemma ReadAnalogsReply(address: int, count: int, f: (ushort, ushort) -> ReadCall<ushort>, values: seq<ushort>)
    requires 1 <= count <= MaxReadRegisters && |values| == count
    requires f(ToUshort(address), count) == ReadReturned(Some(values), Ok)
    ensures ReadAnalogs(address, count, Some(f)) == Answered(ReadReply(WordsToBytes(values), Ok))
    ensures |WordsToBytes(values)| == 2 * count
    ensures BytesToWords(WordsToBytes(values)) == values
  {
    WordsRoundTrip(values);
  }

  /** The guarded part of WriteCoils. An absent callback or no input is an illegal function. A
      single coil carried in two bytes must be 0xFF00 (on) or 0x0000 (off). Otherwise the quantity
      must lie in [1, 0x7B0] and the input hold exactly ceil(count / 8) bytes, of which the first
      `count` bits, LSB first, are passed on. */
  function WriteCoilsStep(address: int, count: int, input: Option<seq<byte>>,
                          onWrite: Option<(ushort, seq<bool>) -> WriteCall>): (r: Step<ExceptionCode>)
    ensures onWrite.None? || input.None? || input == Some([]) ==> r == Done(IllegalFunction)
    ensures r.Done? && r.value != IllegalFunction && r.value != IllegalDataValue ==> onWrite.Some?
    ensures onWrite.Some? && input.Some? && input.value != [] && count == 1 && |input.value| == 2 ==>
              var value := Word(input.value[0], input.value[1]);
              if value != 0xff00 && value != 0 then r == Done(IllegalDataValue)
              else r == Called(onWrite.value(ToUshort(address), [value == 0xff00]))
    ensures onWrite.Some? && input.Some? && input.value != [] && !(count == 1 && |input.value| == 2) ==>
              if count < 1 || count > MaxWriteBits || |input.value| != Ceil8(count) then r == Done(IllegalDataValue)
              else r == Called(onWrite.value(ToUshort(address), BitsOf(input.value, count)))
  {
    if onWrite.None? || input.None? || |input.value| == 0 then Done(IllegalFunction)
    else
      var bytes := input.value;
      if count == 1 && |bytes| == 2 then
        var value := Word(bytes[0], bytes[1]);
        if value != 0xff00 && value != 0x0000 then Done(IllegalDataValue)
        else Called(onWrite.value(ToUshort(address), [value == 0xff00]))
      else if count < 1 || count > MaxWriteBits || |bytes| != count / 8 + (if count % 8 != 0 then 1 else 0) then
        Done(IllegalDataValue)
      else
        Called(onWrite.value(ToUshort(address), BitsOf(bytes, count)))
  }

  /** What calling a write callback gives the guarded part: its code, or that it threw. */
  function Called(call: WriteCall): (r: Step<ExceptionCode>)
    ensures call.WriteReturned? <==> r.Done?
    ensures r.Done? ==> r.value == call.code
    ensures r.CallbackThrew? ==> r.hasInner == call.hasInner
  {
    match call
    case WriteReturned(code) => Done(code)
    case WriteThrew(hasInner) => CallbackThrew(hasInner)
  }

  /** WriteCoils: the guarded part under this project's exception handler. Without a callback
      or input the answer is an illegal function; Ok comes only from the callback, for a single
      coil in two bytes or for 1 to 0x7B0 coils in exactly ceil(count / 8) bytes; the handler
      faults exactly when the callback throws without an inner exception. */
  function WriteCoils(address: int, count: int, input: Option<seq<byte>>,
                      onWrite: Option<(ushort, seq<bool>) -> WriteCall>): (r: Handled<ExceptionCode>)
    ensures onWrite.None? || input.None? || input == Some([]) ==> r == Answered(IllegalFunction)
    ensures r.Faulted? <==> WriteCoilsStep(address, count, input, onWrite) == CallbackThrew(false)
    ensures r == Answered(Ok) ==>
              && onWrite.Some? && input.Some? && 1 <= count <= MaxWriteBits
              && (|input.value| == Ceil8(count) || (count == 1 && |input.value| == 2))
  {
    Handle(WriteCoilsStep(address, count, input, onWrite), SlaveDeviceFailure)
  }

  /** The guarded part of WriteHoldingRegisters: an absent callback or no input is an illegal
      function; the quantity must lie in [1, 0x7B] and the input hold exactly 2 * count bytes,
      which are passed on as big-endian words. */
  function WriteRegistersStep(address: int, count: int, input: Option<seq<byte>>,
                              onWrite: Option<(ushort, seq<ushort>) -> WriteCall>): (r: Step<ExceptionCode>)
    ensures onWrite.None? || input.None? || input == Some([]) ==> r == Done(IllegalFunction)
    ensures onWrite.Some? && input.Some? && input.value != [] ==>
              if count == 0 || count > MaxWriteRegisters || |input.value| != 2 * count then r == Done(IllegalDataValue)
              else
                && |BytesToWords(input.value)| == count
                && r == Called(onWrite.value(ToUshort(address), BytesToWords(input.value)))
  {
    if onWrite.None? || input.None? || |input.value| == 0 then Done(IllegalFunction)
    else if count == 0 || count > MaxWriteRegisters || |input.value| != count * 2 then Done(IllegalDataValue)
    else Called(onWrite.value(ToUshort(address), ChunkedWords(input.value)))
  }

  /** WriteHoldingRegisters: the guarded part under this project's exception handler. Without a
      callback or input the answer is an illegal function; Ok comes only from the callback, for 1
      to 0x7B registers in exactly 2 * count bytes; the handler faults exactly when the callback
      throws without an inner exception. */
  function WriteHoldingRegisters(address: int, count: int, input: Option<seq<byte>>,
                                 onWrite: Option<(ushort, seq<ushort>) -> WriteCall>): (r: Handled<ExceptionCode>)
    ensures onWrite.None? || input.None? || input == Some([]) ==> r == Answered(IllegalFunction)
    ensures r.Faulted? <==> WriteRegistersStep(address, count, input, onWrite) == CallbackThrew(false)
    ensures r == Answered(Ok) ==>
              onWrite.Some? && input.Some? && 1 <= count <= MaxWriteRegisters && |input.value| == 2 * count
  {
    Handle(WriteRegistersStep(address, count, input, onWrite), SlaveDeviceFailure)
  }

  /** Coils packed as a multiple-coil request packs them reach the callback unchanged. */
  lemma WriteCoilsUnpacks(address: ushort, values: seq<bool>, f: (ushort, seq<bool>) -> WriteCall)
    requires 1 <= |values| <= MaxWriteBits
    ensures WriteCoilsStep(address, |values|, Some(PackBits(values)), Some(f)) == Called(f(address, values))
  {
    UnpackPackedBits(values);
    PackBitsAt(values);
  }

  /** Registers laid out high byte first reach the callback unchanged. */
  lemma WriteRegistersUnpacks(address: ushort, values: seq<ushort>, f: (ushort, seq<ushort>) -> WriteCall)
    requires 1 <= |values| <= MaxWriteRegisters
    ensures WriteRegistersStep(address, |values|, Some(WordsToBytes(values)), Some(f)) == Called(f(address, values))
  {
    WordsRoundTrip(values);
  }

  /** The exception reply: the MBAP header for a two-byte PDU (length field 3), then the function
      code with its high bit set and the exception code. */
  function ExceptionFrame(transId: int, unitId: byte, functionCode: byte, responseCode: ExceptionCode): (frame: seq<byte>)
  {
    MbapFrame(transId, unitId, [SetHighBit(functionCode), responseCode.ToByte()])
  }

  /** An exception reply is nine bytes with length field 3; its PDU is the request's function code
      flagged as an exception, then the code. */
  lemma ExceptionFrameLayout(transId: ushort, unitId: byte, functionCode: byte, responseCode: ExceptionCode)
    ensures var frame := ExceptionFrame(transId, unitId, functionCode, responseCode);
            && |frame| == 9
            && Word(frame[0], frame[1]) == transId
            && frame[2] == 0 && frame[3] == 0 && frame[4] == 0 && frame[5] == 3
            && frame[6] == unitId
            && frame[7] >= 0x80 && frame[7] % 0x80 == functionCode % 0x80
            && frame[8] == responseCode.ToByte()
  {
    WordOfHalves(transId);
  }

  /** GenerateExceptionResponse: a fresh nine-byte array filled field by field. */
  method GenerateExceptionResponse(transId: int, unitId: byte, functionCode: byte, responseCode: ExceptionCode)
    returns (response: array<byte>)
    ensures fresh(response)
    ensures response[..] == ExceptionFrame(transId, unitId, functionCode, responseCode)
  {
    var flagged := if functionCode < 0x80 then functionCode + 0x80 else functionCode;
    var exceptionCode := responseCode.ToByte();
    response := new byte[9];
    response[0] := HiOfInt(transId);
    response[1] := LoOfInt(transId);
    response[2] := 0;
    response[3] := 0;
    response[4] := 0;
    response[5] := 3;
    response[6] := unitId;
    response[7] := flagged;
    response[8] := exceptionCode;
  }

  /** GenerateResponse: a fresh array holding the MBAP header for `responseBuffer`, then the
      buffer copied unchanged. The function code is not used. */
  method GenerateResponse(transId: int, unitId: byte, functionCode: byte, responseBuffer: array<byte>)
    returns (response: array<byte>)
    ensures fresh(response)
    ensures response[..] == MbapFrame(transId, unitId, responseBuffer[..])
  {
    var n := responseBuffer.Length;
    response := new byte[7 + n];
    response[0] := HiOfInt(transId);
    response[1] := LoOfInt(transId);
    response[2] := 0;
    response[3] := 0;
    response[4] := HiOfInt(n + 1);
    response[5] := LoOfInt(n + 1);
    response[6] := unitId;
    var i := 0;
    while i < n
      invariant 0 <= i <= n
      invariant response[..7] == MbapFrame(transId, unitId, responseBuffer[..])[..7]
      invariant response[7..7 + i] == responseBuffer[..i]
    {
      response[7 + i] := responseBuffer[i];
      i := i + 1;
    }
    assert response[..] == response[..7] + response[7..7 + n];
  }
}
