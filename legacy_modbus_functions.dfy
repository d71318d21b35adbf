/** The request handlers of the older stand-alone slave project (Kimbus.Slave): the same guards
    as in the Kimbus project, its own BooleansToByte, and an exception handler that answers
    every throwing callback with a device failure. */
module LegacyFunctions {
  import opened Codes
  import opened TryMonad
  import opened Codec
  import opened EnumerableExtensions
  import opened MbHelpers
  import opened ModbusFunctions

  /** The Aggregate in BooleansToByte: from position `n` on, value `k` is OR-ed into the
      accumulator as `1 << k` when it is true; each step is cast back to a byte. */
  function Accumulate(bools: seq<bool>, n: nat, acc: byte): byte
    requires n <= |bools| <= 8
    decreases |bools| - n
  {
    if n == |bools| then acc
    else Accumulate(bools, n + 1, Or(acc, if bools[n] then Pow2(n) else 0) % 256)
  }

  /** Bit `k` of 2^n is set exactly when k == n. */
  lemma {:induction false} BitOfPow2(n: nat, k: nat)
    ensures Bit(Pow2(n), k) == (k == n)
    decreases n
  {
    if n == 0 {
      if k > 0 {
        BitOfZero(k - 1);
      }
    } else if k > 0 {
      BitOfPow2(n - 1, k - 1);
    }
  }

  /** Numbers with the same bits are equal. */
  lemma {:induction false} BitsDetermine(a: nat, b: nat)
    requires forall n: nat {:trigger Bit(a, n)} {:trigger Bit(b, n)} :: Bit(a, n) == Bit(b, n)
    ensures a == b
    decreases a + b
  {
    if a != 0 || b != 0 {
      assert Bit(a, 0) == Bit(b, 0);
      forall n: nat ensures Bit(a / 2, n) == Bit(b / 2, n) {
        assert Bit(a, n + 1) == Bit(b, n + 1);
      }
      BitsDetermine(a / 2, b / 2);
    }
  }

  /** Folding in value `n` sets bit `n` when the value is true and changes no other bit. */
  lemma AccumulateStep(bools: seq<bool>, n: nat, acc: byte)
    requires n < |bools| <= 8
    requires acc < Pow2(n)
    requires forall k: nat {:trigger Bit(acc, k)} :: Bit(acc, k) == (k < n && bools[k])
    ensures var next := Or(acc, if bools[n] then Pow2(n) else 0);
            && next < Pow2(n + 1) && next < 256
            && forall k: nat {:trigger Bit(next, k)} :: Bit(next, k) == (k < n + 1 && bools[k])
  {
    var bit := if bools[n] then Pow2(n) else 0;
    Pow2Monotonic(n + 1, 8);
    Pow2Eight();
    OrBelowPow2(acc, bit, n + 1);
    OrBits(acc, bit);
    forall k: nat ensures Bit(Or(acc, bit), k) == (k < n + 1 && bools[k]) {
      if bools[n] {
        BitOfPow2(n, k);
      } else {
        BitOfZero(k);
      }
    }
  }

  /** After the values before `n` are folded in, the accumulator holds exactly their bits. */
  lemma {:induction false} AccumulateBits(bools: seq<bool>, n: nat, acc: byte)
    requires n <= |bools| <= 8
    requires acc < Pow2(n)
    requires forall k: nat {:trigger Bit(acc, k)} :: Bit(acc, k) == (k < n && bools[k])
    ensures forall k: nat {:trigger Bit(Accumulate(bools, n, acc), k)} ::
              Bit(Accumulate(bools, n, acc), k) == (k < |bools| && bools[k])
    decreases |bools| - n
  {
    if n < |bools| {
      AccumulateStep(bools, n, acc);
      var next := Or(acc, if bools[n] then Pow2(n) else 0);
      assert next % 256 == next;
      AccumulateBits(bools, n + 1, next);
    }
  }

  /** BooleansToByte: more than eight values is an error; otherwise value k is bit k of the
      byte and the bits past the last value are clear, so the byte is the packed chunk. */
  function BooleansToByte(bools: seq<bool>): (r: Outcome<byte>)
    ensures r.Throws? <==> |bools| > 8
    ensures r.Throws? ==> r.error == BadArgument
    ensures r.Returns? ==> r.value == PackByte(bools)
  {
    if |bools| > 8 then Throws(BadArgument)
    else
      var b := Accumulate(bools, 0, 0);
      BitOfZeroAll();
      AccumulateBits(bools, 0, 0);
      assert forall n: nat :: Bit(b, n) == Bit(PackByte(bools), n) by {
        forall n: nat ensures Bit(b, n) == Bit(PackByte(bools), n) {
          if n >= 8 {
            Pow2Eight();
            BitsAbove(b, 8, n);
            BitsAbove(PackByte(bools), 8, n);
          }
        }
      }
      BitsDetermine(b, PackByte(bools));
      Returns(b)
  }

  /** Zero has no bit set. */
  lemma BitOfZeroAll()
    ensures forall k: nat {:trigger Bit(0, k)} :: !Bit(0, k)
  {
    forall k: nat ensures !Bit(0, k) {
      BitOfZero(k);
    }
  }

  /** A number below 2^m has no bit set from position m on. */
  lemma {:induction false} BitsAbove(b: nat, m: nat, n: nat)
    requires b < Pow2(m) && n >= m
    ensures !Bit(b, n)
    decreases m
  {
    if m == 0 {
      BitOfZero(n);
    } else {
      BitsAbove(b / 2, m - 1, n - 1);
    }
  }

  lemma Pow2Eight()
    ensures Pow2(8) == 256
  {
    assert Pow2(2) == 4;
    assert Pow2(4) == 16;
    assert Pow2(6) == 64;
  }

  /** `bools.Chunk(8).Select(BooleansToByte)`: chunks of at most eight never throw. */
  function LegacyPack(values: seq<bool>): (bytes: seq<byte>)
    ensures bytes == PackBits(values)
  {
    var chunks := Chunks(values, 8);
    seq(|chunks|, j requires 0 <= j < |chunks| => BooleansToByte(chunks[j]).value)
  }

  /** The catch block of this project's handlers: every exception a callback throws becomes
      `failure`. */
  function Settle<T>(step: Step<T>, failure: T): (r: T)
    ensures step.Done? ==> r == step.value
    ensures step.CallbackThrew? ==> r == failure
  {
    match step
    case Done(v) => v
    case CallbackThrew(_) => failure
  }

  /** Read<T>: the guarded part under this project's exception handler. It always answers:
      Ok only with the unpacked values of a callback that returned Ok and exactly `count` values,
      and any other code with no data. */
  function Read<T>(address: int, count: int, onRead: Option<(ushort, ushort) -> ReadCall<T>>,
                   maxCount: nat, unpack: seq<T> -> seq<byte>): (r: ReadReply)
    requires maxCount < 0x1_0000
    ensures onRead.None? ==> r == ReadReply([], IllegalFunction)
    ensures onRead.Some? && 1 <= count <= maxCount ==>
              var call := onRead.value(ToUshort(address), count);
              && (call.ReadReturned? && call.code != Ok ==> r == (ReadReply([], call.code)))
              && (call.ReadReturned? && call.code == Ok && (call.values.None? || |call.values.value| != count) ==>
                    r == (ReadReply([], SlaveDeviceFailure)))
    ensures r.code == Ok ==>
              && onRead.Some? && 1 <= count <= maxCount
              && var call := onRead.value(ToUshort(address), count);
                 && call.ReadReturned? && call.code == Ok && call.values.Some? && |call.values.value| == count
                 && r.data == unpack(call.values.value)
    ensures r.code != Ok ==> r.data == []
  {
    Settle(ReadStep(address, count, onRead, maxCount, unpack), ReadReply([], SlaveDeviceFailure))
  }

  /** ReadDigitals: coils or discrete inputs, packed by BooleansToByte. An Ok answer holds
      ceil(count / 8) bytes from which the callback's `count` values unpack again. */
  function ReadDigitals(address: int, count: int, onRead: Option<(ushort, ushort) -> ReadCall<bool>>): (r: ReadReply)
    ensures r.code == Ok ==>
              && onRead.Some? && 1 <= count <= MaxReadBits && |r.data| == Ceil8(count)
              && var call := onRead.value(ToUshort(address), count);
                 && call.ReadReturned? && call.code == Ok && call.values.Some? && |call.values.value| == count
                 && BitsOf(r.data, count) == call.values.value
  {
    var r := Read(address, count, onRead, MaxReadBits, LegacyPack);
    if r.code == Ok then
      UnpackPackedBits(onRead.value(ToUshort(address), count).values.value);
      r
    else r
  }

  /** ReadAnalogs: registers, two big-endian bytes each. An Ok answer holds 2 * count bytes that
      read back as the callback's `count` values. */
  function ReadAnalogs(address: int, count: int, onRead: Option<(ushort, ushort) -> ReadCall<ushort>>): (r: ReadReply)
    ensures r.code == Ok ==>
              && onRead.Some? && 1 <= count <= MaxReadRegisters && |r.data| == 2 * count
              && var call := onRead.value(ToUshort(address), count);
                 && call.ReadReturned? && call.code == Ok && call.values.Some? && |call.values.value| == count
                 && BytesToWords(r.data) == call.values.value
  {
    var r := Read(address, count, onRead, MaxReadRegisters, WordsToBytes);
    if r.code == Ok then
      WordsRoundTrip(onRead.value(ToUshort(address), count).values.value);
      r
    else r
  }

  /** WriteCoils under this project's exception handler. Without a callback or input the answer
      is an illegal function; Ok comes only from the callback, for a single coil in two bytes or
      for 1 to 0x7B0 coils in exactly ceil(count / 8) bytes. */
  function WriteCoils(address: int, count: int, input: Option<seq<byte>>,
                      onWrite: Option<(ushort, seq<bool>) -> WriteCall>): (r: ExceptionCode)
    ensures onWrite.None? || input.None? || input == Some([]) ==> r == IllegalFunction
    ensures r == Ok ==>
              && onWrite.Some? && input.Some? && 1 <= count <= MaxWriteBits
              && (|input.value| == Ceil8(count) || (count == 1 && |input.value| == 2))
  {
    Settle(WriteCoilsStep(address, count, input, onWrite), SlaveDeviceFailure)
  }

  /** WriteHoldingRegisters under this project's exception handler. Without a callback or input
      the answer is an illegal function; Ok comes only from the callback, for 1 to 0x7B registers
      in exactly 2 * count bytes. */
  function WriteHoldingRegisters(address: int, count: int, input: Option<seq<byte>>,
                                 onWrite: Option<(ushort, seq<ushort>) -> WriteCall>): (r: ExceptionCode)
    ensures onWrite.None? || input.None? || input == Some([]) ==> r == IllegalFunction
    ensures r == Ok ==>
              onWrite.Some? && input.Some? && 1 <= count <= MaxWriteRegisters && |input.value| == 2 * count
  {
    Settle(WriteRegistersStep(address, count, input, onWrite), SlaveDeviceFailure)
  }

  /** Any exception from a read callback gives a device failure with no data. */
  lemma ReadThrowIsFailure<T>(address: int, count: int, f: (ushort, ushort) -> ReadCall<T>, hasInner: bool,
                              maxCount: nat, unpack: seq<T> -> seq<byte>)
    requires maxCount < 0x1_0000 && 1 <= count <= maxCount
    requires f(ToUshort(address), count) == ReadThrew(hasInner)
    ensures Read(address, count, Some(f), maxCount, unpack) == ReadReply([], SlaveDeviceFailure)
  {
  }

  /** Any exception from a write callback gives a device failure. */
  lemma WriteThrowIsFailure(address: int, count: int, input: Option<seq<byte>>,
                            onWrite: Option<(ushort, seq<bool>) -> WriteCall>)
    requires WriteCoilsStep(address, count, input, onWrite).CallbackThrew?
    ensures WriteCoils(address, count, input, onWrite) == SlaveDeviceFailure
  {
  }

  /** Any exception from a register write callback gives a device failure. */
  lemma RegisterWriteThrowIsFailure(address: int, count: int, input: Option<seq<byte>>,
                                    onWrite: Option<(ushort, seq<ushort>) -> WriteCall>)
    requires WriteRegistersStep(address, count, input, onWrite).CallbackThrew?
    ensures WriteHoldingRegisters(address, count, input, onWrite) == SlaveDeviceFailure
  {
  }

  /** Wherever the Kimbus handlers answer, the legacy ones answer the same; they differ only
      where the Kimbus handler faults, and there the legacy one reports a device failure. */
  lemma LegacyAgrees(address: int, count: int,
                     coils: Option<(ushort, ushort) -> ReadCall<bool>>,
                     registers: Option<(ushort, ushort) -> ReadCall<ushort>>,
                     input: Option<seq<byte>>,
                     writeCoils: Option<(ushort, seq<bool>) -> WriteCall>,
                     writeRegisters: Option<(ushort, seq<ushort>) -> WriteCall>)
    ensures ModbusFunctions.ReadDigitals(address, count, coils).Answered? ==>
              ReadDigitals(address, count, coils) == ModbusFunctions.ReadDigitals(address, count, coils).value
    ensures ModbusFunctions.ReadDigitals(address, count, coils).Faulted? ==>
              ReadDigitals(address, count, coils) == ReadReply([], SlaveDeviceFailure)
    ensures ModbusFunctions.ReadAnalogs(address, count, registers).Answered? ==>
              ReadAnalogs(address, count, registers) == ModbusFunctions.ReadAnalogs(address, count, registers).value
    ensures ModbusFunctions.WriteCoils(address, count, input, writeCoils).Answered? ==>
              WriteCoils(address, count, input, writeCoils) == ModbusFunctions.WriteCoils(address, count, input, writeCoils).value
    ensures ModbusFunctions.WriteHoldingRegisters(address, count, input, writeRegisters).Answered? ==>
              WriteHoldingRegisters(address, count, input, writeRegisters) ==
              ModbusFunctions.WriteHoldingRegisters(address, count, input, writeRegisters).value
  {
  }

  /** GenerateExceptionResponse: the same nine-byte layout as in the Kimbus project. */
  method GenerateExceptionResponse(transId: int, unitId: byte, functionCode: byte, responseCode: ExceptionCode)
    returns (response: array<byte>)
    ensures fresh(response)
    ensures response[..] == ExceptionFrame(transId, unitId, functionCode, responseCode)
  {
    response := ModbusFunctions.GenerateExceptionResponse(transId, unitId, functionCode, responseCode);
  }

  /** GenerateResponse: the same framing as in the Kimbus project. */
  method GenerateResponse(transId: int, unitId: byte, functionCode: byte, responseBuffer: array<byte>)
    returns (response: array<byte>)
    ensures fresh(response)
    ensures response[..] == MbapFrame(transId, unitId, responseBuffer[..])
  {
    response := ModbusFunctions.GenerateResponse(transId, unitId, functionCode, responseBuffer);
  }
}
