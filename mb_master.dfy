/** The Modbus master (MbMaster): request PDU builders, response checks and decoders, and the
    public operations, each a short-circuiting chain build -> Send -> Receive -> check over the
    transport. A C# argument that may be null is an `Option`; `None` stands for null. */
module MbMaster {
  import opened Codes
  import opened TryMonad
  import opened Codec
  import opened EnumerableExtensions
  import opened MbTransport

  /** Most coils one read may ask for. */
  const MaxReadBits := 2000
  /** Most registers one read may ask for. */
  const MaxReadRegisters := 123
  /** Most coils one write may carry. */
  const MaxWriteBits := 0x07b0
  /** Most registers one write may carry. */
  const MaxWriteRegisters := 123
  /** Largest record size of a file write. */
  const MaxRecordSize := 244

  /** `ToMbByte`: at most eight coils, LSB first, in one byte; more than eight is an error. */
  function ToMbByte(bools: seq<bool>): (r: Outcome<byte>)
    ensures r.Throws? <==> |bools| > 8
    ensures r.Throws? ==> r.error == BadArgument
    ensures r.Returns? ==> forall n: nat :: n < 8 ==> Bit(r.value, n) == (n < |bools| && bools[n])
  {
    if |bools| > 8 then Throws(BadArgument) else Returns(PackByte(bools))
  }

  /** `values.Chunk(8).Select(ToMbByte)`: no chunk is longer than eight, so none throws. */
  function PackedCoils(values: seq<bool>): (bytes: seq<byte>)
    ensures bytes == PackBits(values)
  {
    var chunks := Chunks(values, 8);
    seq(|chunks|, j requires 0 <= j < |chunks| => ToMbByte(chunks[j]).value)
  }

  /** The request of a read (function codes 1 to 4): function code, start address, quantity. */
  function CreateReadPdu(fun: FunctionCode, address: ushort, count: ushort): (r: Outcome<seq<byte>>)
    ensures r.Throws? <==>
              || count == 0
              || ((fun == ReadCoils || fun == ReadDiscreteInputs) && count > MaxReadBits)
              || ((fun == ReadHoldingRegisters || fun == ReadInputRegisters) && count > MaxReadRegisters)
    ensures r.Throws? ==> r.error == BadArgument
    ensures r.Returns? ==>
              && |r.value| == 5
              && r.value[0] == fun.ToByte()
              && Word(r.value[1], r.value[2]) == address
              && Word(r.value[3], r.value[4]) == count
  {
    if count == 0 then Throws(BadArgument)
    else if (fun == ReadCoils || fun == ReadDiscreteInputs) && count > MaxReadBits then Throws(BadArgument)
    else if (fun == ReadHoldingRegisters || fun == ReadInputRegisters) && count > MaxReadRegisters then Throws(BadArgument)
    else Returns(FunctionAndWords(fun.ToByte(), address, count))
  }

  /** The on and off values a single-coil write carries. */
  function CoilValue(value: bool): (w: ushort)
    ensures w == 0xff00 || w == 0
  {
    if value then 0xff00 else 0x0000
  }

  /** Write single coil (function code 5): address, then 0xFF00 for on or 0x0000 for off. */
  function CreateWriteSingleCoilPdu(address: ushort, value: bool): (pdu: seq<byte>)
    ensures |pdu| == 5 && pdu[0] == WriteSingleCoil.ToByte()
    ensures Word(pdu[1], pdu[2]) == address
    ensures pdu[3..] == if value then [0xff, 0x00] else [0x00, 0x00]
  {
    WordOfHalves(address);
    [WriteSingleCoil.ToByte(), Hi(address), Lo(address)] + (if value then [0xff, 0x00] else [0x00, 0x00])
  }

  /** The value field of a single-coil request is 0xFF00 exactly for on and 0x0000 exactly for off. */
  lemma SingleCoilValue(address: ushort, value: bool)
    ensures var pdu := CreateWriteSingleCoilPdu(address, value);
            Word(pdu[3], pdu[4]) == CoilValue(value) && (Word(pdu[3], pdu[4]) == 0xff00 <==> value)
  {
  }

  /** Write single register (function code 6): address, then the value, both big-endian. */
  function CreateWriteSingleRegisterPdu(address: ushort, value: ushort): (pdu: seq<byte>)
    ensures |pdu| == 5 && pdu[0] == WriteSingleRegister.ToByte()
    ensures Word(pdu[1], pdu[2]) == address && Word(pdu[3], pdu[4]) == value
  {
    FunctionAndWords(WriteSingleRegister.ToByte(), address, value)
  }

  /** Write multiple coils (function code 15): a null list is rejected, and so is an empty one
      or one of more than 0x7B0 coils; the layout is stated by WriteMultipleCoilsLayout. */
  function CreateWriteMultipleCoilsPdu(address: ushort, values: Option<seq<bool>>): (r: Outcome<seq<byte>>)
    ensures values.None? ==> r == Throws(ArgumentNull)
    ensures values.Some? ==> (r.Throws? <==> |values.value| == 0 || |values.value| > MaxWriteBits)
    ensures values.Some? && r.Throws? ==> r.error == BadArgument
  {
    match values
    case None => Throws(ArgumentNull)
    case Some(vals) =>
      if |vals| == 0 || |vals| > MaxWriteBits then Throws(BadArgument)
      else
        var bytes := PackedCoils(vals);
        Returns(FunctionAndWords(WriteMultipleCoils.ToByte(), address, |vals|) + [|bytes|] + bytes)
  }

  /** A multiple-coil write request: address, quantity, byte count, then the coils packed eight
      to a byte, LSB first, with the unused high bits of the last byte clear. */
  lemma WriteMultipleCoilsLayout(address: ushort, values: seq<bool>)
    requires 0 < |values| <= MaxWriteBits
    ensures CreateWriteMultipleCoilsPdu(address, Some(values)).Returns?
    ensures var pdu := CreateWriteMultipleCoilsPdu(address, Some(values)).value;
            var n := |values|;
            && |pdu| == 6 + Ceil8(n)
            && pdu[0] == WriteMultipleCoils.ToByte()
            && Word(pdu[1], pdu[2]) == address
            && Word(pdu[3], pdu[4]) == n
            && pdu[5] == Ceil8(n)
            && pdu[6..] == PackBits(values)
            && BitsOf(pdu[6..], n) == values
            && forall i, k :: 6 <= i < |pdu| && 0 <= k < 8 && 8 * (i - 6) + k >= n ==> !Bit(pdu[i], k)
  {
    var pdu := CreateWriteMultipleCoilsPdu(address, Some(values)).value;
    var bytes := PackBits(values);
    PackBitsAt(values);
    UnpackPackedBits(values);
    assert pdu[..5] == FunctionAndWords(WriteMultipleCoils.ToByte(), address, |values|);
    assert pdu[6..] == bytes;
  }

  /** Write multiple registers (function code 16): a null list is rejected, and so is an empty one
      or one of more than 123 values; the layout is stated by WriteMultipleRegistersLayout. */
  function CreateWriteMultipleRegistersPdu(address: ushort, values: Option<seq<ushort>>): (r: Outcome<seq<byte>>)
    ensures values.None? ==> r == Throws(ArgumentNull)
    ensures values.Some? ==> (r.Throws? <==> |values.value| == 0 || |values.value| > MaxWriteRegisters)
    ensures values.Some? && r.Throws? ==> r.error == BadArgument
  {
    match values
    case None => Throws(ArgumentNull)
    case Some(vals) =>
      if |vals| == 0 || |vals| > MaxWriteRegisters then Throws(BadArgument)
      else
        var bytes := WordsToBytes(vals);
        Returns(FunctionAndWords(WriteMultipleRegisters.ToByte(), address, |vals|) + [|bytes|] + bytes)
  }

  /** A multiple-register write request: address, quantity, byte count 2n, then the values
      big-endian. */
  lemma WriteMultipleRegistersLayout(address: ushort, values: seq<ushort>)
    requires 0 < |values| <= MaxWriteRegisters
    ensures CreateWriteMultipleRegistersPdu(address, Some(values)).Returns?
    ensures var pdu := CreateWriteMultipleRegistersPdu(address, Some(values)).value;
            var n := |values|;
            && |pdu| == 6 + 2 * n
            && pdu[0] == WriteMultipleRegisters.ToByte()
            && Word(pdu[1], pdu[2]) == address
            && Word(pdu[3], pdu[4]) == n
            && pdu[5] == 2 * n
            && BytesToWords(pdu[6..]) == values
  {
    var pdu := CreateWriteMultipleRegistersPdu(address, Some(values)).value;
    WordsRoundTrip(values);
    assert pdu[..5] == FunctionAndWords(WriteMultipleRegisters.ToByte(), address, |values|);
    assert pdu[6..] == WordsToBytes(values);
  }

  /** The data of a multiple-register write request is the values, high byte first. */
  lemma WriteMultipleRegistersData(address: ushort, values: seq<ushort>)
    requires 0 < |values| <= MaxWriteRegisters
    ensures CreateWriteMultipleRegistersPdu(address, Some(values)).Returns?
    ensures |CreateWriteMultipleRegistersPdu(address, Some(values)).value| >= 6
    ensures CreateWriteMultipleRegistersPdu(address, Some(values)).value[6..] == WordsToBytes(values)
  {
    var pdu := CreateWriteMultipleRegistersPdu(address, Some(values)).value;
    assert pdu[6..] == WordsToBytes(values);
  }

  /** The bytes of record `recordNumber` of size `recordSize`: what is left of the file from
      the record's start, cut to `recordSize`. */
  function RecordWindow(file: seq<byte>, recordSize: byte, recordNumber: ushort): (w: seq<byte>)
    requires recordSize * recordNumber <= |file|
    ensures |w| <= recordSize && recordSize * recordNumber + |w| <= |file|
    ensures w == file[recordSize * recordNumber .. recordSize * recordNumber + |w|]
    ensures |w| < recordSize ==> recordSize * recordNumber + |w| == |file|
  {
    Take(file[recordSize * recordNumber..], recordSize)
  }

  /** Write file record (function code 0x15): a null or empty file is rejected, and so is a record
      size of 0 or above 244 or a record that starts past the end of the file; the layout is
      stated by WriteFileLayout. */
  function CreateWriteFilePdu(fileNumber: ushort, recordSize: byte, recordNumber: ushort, file: Option<seq<byte>>)
    : (r: Outcome<seq<byte>>)
    ensures file.None? ==> r == Throws(ArgumentNull)
    ensures file.Some? ==>
              (r.Throws? <==>
                 || |file.value| == 0
                 || recordSize == 0 || recordSize > MaxRecordSize
                 || recordSize * recordNumber > |file.value|)
    ensures file.Some? && r.Throws? ==> r.error == BadArgument
  {
    match file
    case None => Throws(ArgumentNull)
    case Some(f) =>
      if |f| == 0 then Throws(BadArgument)
      else if recordSize == 0 || recordSize > MaxRecordSize then Throws(BadArgument)
      else if recordSize * recordNumber > |f| then Throws(BadArgument)
      else
        Returns(FilePdu(fileNumber, recordNumber, Padded(RecordWindow(f, recordSize, recordNumber))))
  }

  /** A record padded with one zero byte to an even length. */
  function Padded(record: seq<byte>): (padded: seq<byte>)
  {
    if |record| % 2 != 0 then record + [0] else record
  }

  /** The file write PDU around a record already padded to an even length: the request data
      length (set once the PDU is built), reference type 6, file number, record number and
      record length in words, then the record. */
  function FilePdu(fileNumber: ushort, recordNumber: ushort, padded: seq<byte>): (pdu: seq<byte>)
    requires |padded| <= MaxRecordSize + 1
  {
    var recordLength := |padded| / 2;
    var pdu := [WriteFile.ToByte(), 0x00, 0x06, Hi(fileNumber), Lo(fileNumber),
                Hi(recordNumber), Lo(recordNumber), Hi(recordLength), Lo(recordLength)] + padded;
    pdu[1 := |pdu| - 2]
  }

  /** The fields of a file write PDU, read back: everything after the data length byte is
      counted by it, and the record follows the nine header bytes. */
  lemma FilePduLayout(fileNumber: ushort, recordNumber: ushort, padded: seq<byte>)
    requires |padded| <= MaxRecordSize + 1
    ensures var pdu := FilePdu(fileNumber, recordNumber, padded);
            && |pdu| == 9 + |padded|
            && pdu[0] == WriteFile.ToByte()
            && pdu[1] == |pdu| - 2
            && pdu[2] == 6
            && Word(pdu[3], pdu[4]) == fileNumber
            && Word(pdu[5], pdu[6]) == recordNumber
            && Word(pdu[7], pdu[8]) == |padded| / 2
            && pdu[9..] == padded
  {
    var pdu := FilePdu(fileNumber, recordNumber, padded);
    WordOfHalves(fileNumber);
    WordOfHalves(recordNumber);
    WordOfHalves(|padded| / 2);
    assert pdu[9..] == padded;
  }

  /** A file write request carries one sub-request of reference type 6: file number, record
      number, record length in words, then the record padded with one zero byte to an even
      length; the request data length is the size of everything after it. Only the start of the
      record is checked against the end of the file, so the record may be cut short. */
  lemma WriteFileLayout(fileNumber: ushort, recordSize: byte, recordNumber: ushort, file: seq<byte>)
    requires |file| > 0 && 0 < recordSize <= MaxRecordSize && recordSize * recordNumber <= |file|
    ensures CreateWriteFilePdu(fileNumber, recordSize, recordNumber, Some(file)).Returns?
    ensures var pdu := CreateWriteFilePdu(fileNumber, recordSize, recordNumber, Some(file)).value;
            var w := RecordWindow(file, recordSize, recordNumber);
            && |pdu| >= 9
            && pdu[0] == WriteFile.ToByte()
            && pdu[1] == |pdu| - 2
            && pdu[2] == 6
            && Word(pdu[3], pdu[4]) == fileNumber
            && Word(pdu[5], pdu[6]) == recordNumber
            && (|pdu| - 9) % 2 == 0 && |pdu| - 9 == |w| + |w| % 2
            && Word(pdu[7], pdu[8]) == (|pdu| - 9) / 2
            && pdu[9..9 + |w|] == w
            && forall i :: 9 + |w| <= i < |pdu| ==> pdu[i] == 0
  {
    var w := RecordWindow(file, recordSize, recordNumber);
    RecordPdu(fileNumber, recordNumber, w);
  }

  /** The layout of the file write PDU for one record, in terms of the record itself. */
  lemma RecordPdu(fileNumber: ushort, recordNumber: ushort, w: seq<byte>)
    requires |w| <= MaxRecordSize
    ensures var pdu := FilePdu(fileNumber, recordNumber, Padded(w));
            && |pdu| >= 9
            && pdu[0] == WriteFile.ToByte()
            && pdu[1] == |pdu| - 2
            && pdu[2] == 6
            && Word(pdu[3], pdu[4]) == fileNumber
            && Word(pdu[5], pdu[6]) == recordNumber
            && (|pdu| - 9) % 2 == 0 && |pdu| - 9 == |w| + |w| % 2
            && Word(pdu[7], pdu[8]) == (|pdu| - 9) / 2
            && pdu[9..9 + |w|] == w
            && forall i :: 9 + |w| <= i < |pdu| ==> pdu[i] == 0
  {
    FilePduLayout(fileNumber, recordNumber, Padded(w));
    PaddedTail(FilePdu(fileNumber, recordNumber, Padded(w)), w);
  }

  /** Bytes that end with a padded record hold the record and then only zeros. */
  lemma PaddedTail(pdu: seq<byte>, w: seq<byte>)
    requires |pdu| >= 9 && pdu[9..] == Padded(w)
    ensures (|pdu| - 9) % 2 == 0 && |pdu| - 9 == |w| + |w| % 2
    ensures pdu[9..9 + |w|] == w
    ensures forall i :: 9 + |w| <= i < |pdu| ==> pdu[i] == 0
  {
    var padded := Padded(w);
    assert padded[0..|w|] == w;
    SliceOfSuffix(pdu, 9, 0, |w|);
    forall i | 9 + |w| <= i < |pdu| ensures pdu[i] == 0 {
      assert pdu[i] == pdu[9..][i - 9] == padded[i - 9];
    }
  }

  /** A record that starts exactly at the end of the file passes the bounds check and is sent
      with no data at all. */
  lemma WriteFileAcceptsEmptyRecord(fileNumber: ushort, recordSize: byte, recordNumber: ushort, file: seq<byte>)
    requires 0 < recordSize <= MaxRecordSize
    requires |file| > 0 && recordSize * recordNumber == |file|
    ensures CreateWriteFilePdu(fileNumber, recordSize, recordNumber, Some(file)).Returns?
    ensures |CreateWriteFilePdu(fileNumber, recordSize, recordNumber, Some(file)).value| == 9
  {
    assert |RecordWindow(file, recordSize, recordNumber)| == 0;
  }

  /** CheckFunction: the error raised when the function code of a response, high bit masked off,
      is not the one asked for. On an empty response `First()` throws an invalid-operation
      exception, which is modelled as out of range. */
  function CheckFunction(response: seq<byte>, fun: FunctionCode): (r: Option<Exc>)
    ensures r.None? <==> |response| > 0 && response[0] % 0x80 == fun.ToByte()
    ensures r.Some? ==> r.value == if |response| == 0 then OutOfRange else Mismatch
  {
    if |response| == 0 then Some(OutOfRange)
    else if response[0] % 0x80 != fun.ToByte() then Some(Mismatch)
    else None
  }

  /** CheckModbusException: a response with the high bit of its function code set raises the
      exception code it carries in its second byte. On an empty response `First()` throws an
      invalid-operation exception, and a flagged one-byte response has no second byte; both are
      modelled as out of range. */
  function CheckModbusException(response: seq<byte>): (r: Option<Exc>)
    ensures r.None? <==> |response| > 0 && response[0] < 0x80
    ensures |response| >= 2 && response[0] >= 0x80 ==> r == Some(MbError(response[1]))
  {
    if |response| == 0 then Some(OutOfRange)
    else if response[0] >= 0x80 then (if |response| < 2 then Some(OutOfRange) else Some(MbError(response[1])))
    else None
  }

  /** CheckReadResponsePduHeader: the first error in the order the checks run (function code,
      exception flag, byte count against the expected count, byte count against the length). */
  function CheckReadResponsePduHeader(fun: FunctionCode, byteCountExpected: int, response: seq<byte>): (r: Option<Exc>)
    ensures r.None? <==>
              |response| >= 2 && response[0] == fun.ToByte() &&
              response[1] == byteCountExpected && response[1] == |response| - 2
    ensures |response| == 0 ==> r == Some(ArgumentNull)
    ensures |response| > 0 && response[0] % 0x80 != fun.ToByte() ==> r == Some(Mismatch)
    ensures |response| >= 2 && response[0] % 0x80 == fun.ToByte() && response[0] >= 0x80 ==>
              r == Some(MbError(response[1]))
  {
    if |response| == 0 then Some(ArgumentNull)
    else if CheckFunction(response, fun).Some? then CheckFunction(response, fun)
    else if CheckModbusException(response).Some? then CheckModbusException(response)
    else if |response| < 2 then Some(OutOfRange)
    else if response[1] != byteCountExpected then Some(Mismatch)
    else if response[1] != |response| - 2 then Some(Mismatch)
    else None
  }

  /** UnwrapDiscretePdu: a checked reply to a coil or input read gives exactly `count` coils,
      LSB first from the third byte on. */
  function UnwrapDiscretePdu(fun: FunctionCode, count: ushort, response: seq<byte>): (r: Outcome<seq<bool>>)
    ensures r.Returns? <==>
              |response| >= 2 && response[0] == fun.ToByte() &&
              response[1] == Ceil8(count) && |response| == Ceil8(count) + 2
    ensures r.Throws? ==> Some(r.error) == CheckReadResponsePduHeader(fun, Ceil8(count), response)
    ensures r.Returns? ==>
              && |r.value| == count
              && forall i :: 0 <= i < count ==> r.value[i] == Bit(response[2 + i / 8], i % 8)
  {
    match CheckReadResponsePduHeader(fun, Ceil8(count), response)
    case Some(e) => Throws(e)
    case None => Returns(BitsOf(response[2..], count))
  }

  /** UnwrapAnalogPdu: a checked reply to a register read gives exactly `count` big-endian words. */
  function UnwrapAnalogPdu(fun: FunctionCode, count: ushort, response: seq<byte>): (r: Outcome<seq<ushort>>)
    ensures r.Returns? <==>
              |response| >= 2 && response[0] == fun.ToByte() &&
              response[1] == 2 * count && |response| == 2 * count + 2
    ensures r.Throws? ==> Some(r.error) == CheckReadResponsePduHeader(fun, 2 * count, response)
    ensures r.Returns? ==>
              && |r.value| == count
              && forall i :: 0 <= i < count ==> r.value[i] == Word(response[2 + 2 * i], response[3 + 2 * i])
  {
    match CheckReadResponsePduHeader(fun, 2 * count, response)
    case Some(e) => Throws(e)
    case None => Returns(ChunkedWords(response[2..]))
  }

  /** CheckWriteSingleResponse: the echo must carry the function code, the address and the value
      of the request; bytes after the fifth are not looked at. */
  function CheckWriteSingleResponse(response: seq<byte>, fun: FunctionCode, address: ushort, value: ushort): (r: Outcome<bool>)
    ensures r.Returns? <==>
              |response| >= 5 && response[0] == fun.ToByte() &&
              Word(response[1], response[2]) == address && Word(response[3], response[4]) == value
    ensures r.Returns? ==> r.value
    ensures |response| >= 2 && response[0] % 0x80 == fun.ToByte() && response[0] >= 0x80 ==>
              r == Throws(MbError(response[1]))
  {
    if CheckFunction(response, fun).Some? then Throws(CheckFunction(response, fun).value)
    else if CheckModbusException(response).Some? then Throws(CheckModbusException(response).value)
    else if |response| < 3 then Throws(OutOfRange)
    else if address != Word(response[1], response[2]) then Throws(Mismatch)
    else if |response| < 5 then Throws(OutOfRange)
    else if value != Word(response[3], response[4]) then Throws(Mismatch)
    else Returns(true)
  }

  /** `(ushort)(b3 | b4)`: the two quantity bytes OR-ed together, without shifting the first. */
  function OrBytes(b3: byte, b4: byte): (r: byte)
    ensures b3 == 0 ==> r == b4
    ensures forall n: nat {:trigger Bit(r, n)} :: Bit(r, n) == (Bit(b3, n) || Bit(b4, n))
  {
    OrBits(b3, b4);
    OrBelowPow2(b3, b4, 8);
    Or(b3, b4)
  }

  /** CheckWriteMultipleResponse: the echo must carry the function code and the address, and its
      quantity bytes OR-ed together must equal the number of values written. */
  function CheckWriteMultipleResponse(response: seq<byte>, fun: FunctionCode, address: ushort, p: int): (r: Outcome<bool>)
    ensures r.Returns? <==>
              |response| >= 5 && response[0] == fun.ToByte() &&
              Word(response[1], response[2]) == address && OrBytes(response[3], response[4]) == p
    ensures r.Returns? ==> r.value
    ensures |response| >= 2 && response[0] % 0x80 == fun.ToByte() && response[0] >= 0x80 ==>
              r == Throws(MbError(response[1]))
  {
    if CheckFunction(response, fun).Some? then Throws(CheckFunction(response, fun).value)
    else if CheckModbusException(response).Some? then Throws(CheckModbusException(response).value)
    else if |response| < 3 then Throws(OutOfRange)
    else if address != Word(response[1], response[2]) then Throws(Mismatch)
    else if |response| < 5 then Throws(OutOfRange)
    else if p != OrBytes(response[3], response[4]) then Throws(Mismatch)
    else Returns(true)
  }

  /** No echo is accepted for a write of 256 values or more: the OR of two bytes is below 256. */
  lemma MultipleWriteNeedsSmallCount(response: seq<byte>, fun: FunctionCode, address: ushort, p: int)
    requires CheckWriteMultipleResponse(response, fun, address, p).Returns?
    ensures p < 256
  {
  }

  /** A faithful echo of a write of `p` values, with `p` big-endian in bytes 3 and 4, is accepted
      exactly when `p` is below 256. */
  lemma FaithfulEchoAccepted(fun: FunctionCode, address: ushort, p: ushort)
    ensures var echo := [fun.ToByte(), Hi(address), Lo(address), Hi(p), Lo(p)];
            CheckWriteMultipleResponse(echo, fun, address, p).Returns? <==> p < 256
  {
    WordOfHalves(address);
    if p < 256 {
      assert Hi(p) == 0;
    }
  }

  /** CheckWriteFileResponse: after the function code and exception checks, the response must agree
      with the request on every position both have; a shorter or longer echo is not rejected. */
  function CheckWriteFileResponse(response: seq<byte>, pdu: seq<byte>): (r: Outcome<bool>)
    ensures r.Returns? <==>
              |response| > 0 && response[0] == WriteFile.ToByte() &&
              forall i :: 0 <= i < |response| && i < |pdu| ==> response[i] == pdu[i]
    ensures r.Returns? ==> r.value
    ensures |response| >= 2 && response[0] % 0x80 == WriteFile.ToByte() && response[0] >= 0x80 ==>
              r == Throws(MbError(response[1]))
  {
    if CheckFunction(response, WriteFile).Some? then Throws(CheckFunction(response, WriteFile).value)
    else if CheckModbusException(response).Some? then Throws(CheckModbusException(response).value)
    else if exists i :: 0 <= i < |response| && i < |pdu| && response[i] != pdu[i] then Throws(Mismatch)
    else Returns(true)
  }

  /** Every non-empty prefix of a write-file request is accepted as its echo. */
  lemma TruncatedFileEchoAccepted(pdu: seq<byte>, k: nat)
    requires 0 < k <= |pdu| && pdu[0] == WriteFile.ToByte()
    ensures CheckWriteFileResponse(pdu[..k], pdu) == Returns(true)
  {
  }

  /** UnwrapUserFunctionPdu: a reply that starts with the function code asked for gives the rest of
      the reply; an empty reply, or one with any other first byte, is an error. */
  function UnwrapUserFunctionPdu(functionCode: byte, response: seq<byte>): (r: Outcome<seq<byte>>)
    ensures r.Returns? <==> |response| > 0 && response[0] == functionCode
    ensures r.Returns? ==> [functionCode] + r.value == response
    ensures |response| == 0 ==> r == Throws(BadArgument)
    ensures |response| > 0 && response[0] != functionCode ==> r == Throws(Unexpected)
  {
    if |response| == 0 then Throws(BadArgument)
    else if response[0] == functionCode then Returns(response[1..])
    else Throws(Unexpected)
  }

  /** The anonymous `{ pdu, snd }` the first two clauses of a query produce. */
  datatype SentPdu = SentPdu(pdu: seq<byte>, snd: bool)

  /** The query `from pdu in built from snd in send(pdu) from response in received select
      check(pdu, response)`, as the compiler translates it: two nested SelectMany binds. */
  function Query<T>(built: Try<seq<byte>>, send: seq<byte> -> Try<bool>, received: Try<seq<byte>>,
                    check: (seq<byte>, seq<byte>) -> Outcome<T>): (r: Try<T>)
    ensures built.IsFailure() ==> r == TryFailure(Unaggregate(Unaggregate(built.failure)))
    ensures built.IsSuccess() && send(built.success).IsFailure() ==>
              r == TryFailure(Unaggregate(Unaggregate(send(built.success).failure)))
    ensures r.IsSuccess() <==>
              built.IsSuccess() && send(built.success).IsSuccess() && received.IsSuccess() &&
              check(built.success, received.success).Returns?
    ensures r.IsSuccess() ==> r.success == check(built.success, received.success).value
  {
    var sent := SelectMany(built, send, (pdu, snd) => Returns(SentPdu(pdu, snd)));
    SelectMany(sent, (x: SentPdu) => received, (x: SentPdu, response) => check(x.pdu, response))
  }

  /** When the request cannot be built, the query fails the same way whatever the transport does. */
  lemma QueryIgnoresTransport<T>(built: Try<seq<byte>>,
                                 send1: seq<byte> -> Try<bool>, received1: Try<seq<byte>>,
                                 send2: seq<byte> -> Try<bool>, received2: Try<seq<byte>>,
                                 check: (seq<byte>, seq<byte>) -> Outcome<T>)
    requires built.IsFailure()
    ensures Query(built, send1, received1, check) == Query(built, send2, received2, check)
  {
  }

  /** `from snd in send from response in received select UnwrapUserFunctionPdu(...)`: the user
      function query has no build step. */
  function UserQuery(functionCode: byte, sendResult: Try<bool>, received: Try<seq<byte>>): (r: Try<seq<byte>>)
    ensures sendResult.IsFailure() ==> r == TryFailure(Unaggregate(sendResult.failure))
    ensures r.IsSuccess() <==>
              sendResult.IsSuccess() && received.IsSuccess() &&
              |received.success| > 0 && received.success[0] == functionCode
    ensures r.IsSuccess() ==> [functionCode] + r.success == received.success
  {
    SelectMany(sendResult, (snd: bool) => received, (snd: bool, response) => UnwrapUserFunctionPdu(functionCode, response))
  }

  /** The check of a coil or input read. */
  function DiscreteCheck(fun: FunctionCode, count: ushort): (seq<byte>, seq<byte>) -> Outcome<seq<bool>>
  {
    (pdu, response) => UnwrapDiscretePdu(fun, count, response)
  }

  /** The check of a register read. */
  function AnalogCheck(fun: FunctionCode, count: ushort): (seq<byte>, seq<byte>) -> Outcome<seq<ushort>>
  {
    (pdu, response) => UnwrapAnalogPdu(fun, count, response)
  }

  /** The check of a single-coil or single-register write. */
  function SingleWriteCheck(fun: FunctionCode, address: ushort, value: ushort): (seq<byte>, seq<byte>) -> Outcome<bool>
  {
    (pdu, response) => CheckWriteSingleResponse(response, fun, address, value)
  }

  /** The check of a multiple-coil or multiple-register write. */
  function MultipleWriteCheck(fun: FunctionCode, address: ushort, p: int): (seq<byte>, seq<byte>) -> Outcome<bool>
  {
    (pdu, response) => CheckWriteMultipleResponse(response, fun, address, p)
  }

  /** The check of a file write, against the request that was sent. */
  function FileWriteCheck(): (seq<byte>, seq<byte>) -> Outcome<bool>
  {
    (pdu, response) => CheckWriteFileResponse(response, pdu)
  }

  /** The requests a query sends: one when the PDU was built, none otherwise. */
  function Requests(unitId: byte, built: Try<seq<byte>>): (rs: seq<Request>)
    ensures built.IsFailure() <==> rs == []
  {
    if built.IsSuccess() then [Request(unitId, built.success)] else []
  }

  /** How many receives a query performs: one when the request was sent successfully. */
  function Receives(built: Try<seq<byte>>, send: seq<byte> -> Try<bool>): (n: nat)
    ensures n == 1 ==> built.IsSuccess()
  {
    if built.IsSuccess() && send(built.success).IsSuccess() then 1 else 0
  }

  /** What one query over `transport` does between the two states: its result is the query's,
      a request is logged only when the PDU was built, and a receive happens only when the
      request was sent. */
  twostate predicate Exchanged<T>(transport: Transport, unitId: byte, built: Try<seq<byte>>,
                                  check: (seq<byte>, seq<byte>) -> Outcome<T>, new r: Try<T>)
    reads transport
  {
    && r == Query(built, old(transport.Sender(unitId)), old(transport.NextReceive()), check)
    && transport.sent == old(transport.sent) + Requests(unitId, built)
    && transport.receives == old(transport.receives) + Receives(built, old(transport.Sender(unitId)))
  }

  class Master {
    const transport: Transport

    constructor(transport: Transport)
      ensures this.transport == transport
    {
      this.transport := transport;
    }

    /** One query over the transport: Send only once the PDU is built, Receive only once it was sent. */
    method Exchange<T>(unitId: byte, built: Try<seq<byte>>, check: (seq<byte>, seq<byte>) -> Outcome<T>)
      returns (r: Try<T>)
      modifies transport
      ensures Exchanged(transport, unitId, built, check, r)
      ensures built.IsFailure() ==> r.IsFailure() && unchanged(transport)
    {
      var sent: Try<SentPdu>;
      if built.IsSuccess() {
        var snd := transport.Send(unitId, built.success);
        sent := SelectMany(built, (pdu: seq<byte>) => snd, (pdu, s) => Returns(SentPdu(pdu, s)));
      } else {
        sent := Failure(built.failure);
      }
      if sent.IsSuccess() {
        var response := transport.Receive();
        r := SelectMany(sent, (x: SentPdu) => response, (x: SentPdu, res) => check(x.pdu, res));
      } else {
        r := Failure(sent.failure);
      }
    }

    /** ReadCoils (function code 1). */
    method ReadCoils(unitId: byte, address: ushort, count: ushort) returns (r: Try<seq<bool>>)
      modifies transport
      ensures Exchanged(transport, unitId, Apply(CreateReadPdu(FunctionCode.ReadCoils, address, count)),
                        DiscreteCheck(FunctionCode.ReadCoils, count), r)
      ensures CreateReadPdu(FunctionCode.ReadCoils, address, count).Throws? ==> r.IsFailure() && unchanged(transport)
    {
      var built := Apply(CreateReadPdu(FunctionCode.ReadCoils, address, count));
      r := Exchange(unitId, built, DiscreteCheck(FunctionCode.ReadCoils, count));
    }

    /** ReadDiscreteInputs (function code 2). */
    method ReadDiscreteInputs(unitId: byte, address: ushort, count: ushort) returns (r: Try<seq<bool>>)
      modifies transport
      ensures Exchanged(transport, unitId, Apply(CreateReadPdu(FunctionCode.ReadDiscreteInputs, address, count)),
                        DiscreteCheck(FunctionCode.ReadDiscreteInputs, count), r)
      ensures CreateReadPdu(FunctionCode.ReadDiscreteInputs, address, count).Throws? ==> r.IsFailure() && unchanged(transport)
    {
      var built := Apply(CreateReadPdu(FunctionCode.ReadDiscreteInputs, address, count));
      r := Exchange(unitId, built, DiscreteCheck(FunctionCode.ReadDiscreteInputs, count));
    }

    /** ReadHoldingRegisters (function code 3). */
    method ReadHoldingRegisters(unitId: byte, address: ushort, count: ushort) returns (r: Try<seq<ushort>>)
      modifies transport
      ensures Exchanged(transport, unitId, Apply(CreateReadPdu(FunctionCode.ReadHoldingRegisters, address, count)),
                        AnalogCheck(FunctionCode.ReadHoldingRegisters, count), r)
      ensures CreateReadPdu(FunctionCode.ReadHoldingRegisters, address, count).Throws? ==> r.IsFailure() && unchanged(transport)
    {
      var built := Apply(CreateReadPdu(FunctionCode.ReadHoldingRegisters, address, count));
      r := Exchange(unitId, built, AnalogCheck(FunctionCode.ReadHoldingRegisters, count));
    }

    /** ReadInputRegisters (function code 4). */
    method ReadInputRegisters(unitId: byte, address: ushort, count: ushort) returns (r: Try<seq<ushort>>)
      modifies transport
      ensures Exchanged(transport, unitId, Apply(CreateReadPdu(FunctionCode.ReadInputRegisters, address, count)),
                        AnalogCheck(FunctionCode.ReadInputRegisters, count), r)
      ensures CreateReadPdu(FunctionCode.ReadInputRegisters, address, count).Throws? ==> r.IsFailure() && unchanged(transport)
    {
      var built := Apply(CreateReadPdu(FunctionCode.ReadInputRegisters, address, count));
      r := Exchange(unitId, built, AnalogCheck(FunctionCode.ReadInputRegisters, count));
    }

    /** WriteCoils: null values fail at once; one value goes out as a single-coil write (code 5),
        any other number as a multiple-coil write (code 15). */
    method WriteCoils(unitId: byte, address: ushort, values: Option<seq<bool>>) returns (r: Try<bool>)
      modifies transport
      ensures values.None? ==> r == TryFailure(ArgumentNull) && unchanged(transport)
      ensures values.Some? && |values.value| == 1 ==>
                Exchanged(transport, unitId, Apply(Returns(CreateWriteSingleCoilPdu(address, values.value[0]))),
                          SingleWriteCheck(WriteSingleCoil, address, CoilValue(values.value[0])), r)
      ensures values.Some? && |values.value| != 1 ==>
                Exchanged(transport, unitId, Apply(CreateWriteMultipleCoilsPdu(address, values)),
                          MultipleWriteCheck(WriteMultipleCoils, address, |values.value|), r)
      ensures values.Some? && (|values.value| == 0 || |values.value| > MaxWriteBits) ==> r.IsFailure() && unchanged(transport)
    {
      if values.None? {
        r := Failure(ArgumentNull);
        return;
      }
      var vals := values.value;
      if |vals| == 1 {
        var built := Apply(Returns(CreateWriteSingleCoilPdu(address, vals[0])));
        r := Exchange(unitId, built, SingleWriteCheck(WriteSingleCoil, address, CoilValue(vals[0])));
        return;
      }
      var built := Apply(CreateWriteMultipleCoilsPdu(address, values));
      r := Exchange(unitId, built, MultipleWriteCheck(WriteMultipleCoils, address, |vals|));
    }

    /** WriteHoldingRegisters: null or no values fail at once; one value goes out as a
        single-register write (code 6), more as a multiple-register write (code 16). */
    method WriteHoldingRegisters(unitId: byte, address: ushort, values: Option<seq<ushort>>) returns (r: Try<bool>)
      modifies transport
      ensures values.None? ==> r == TryFailure(ArgumentNull) && unchanged(transport)
      ensures values.Some? && |values.value| == 0 ==> r == TryFailure(BadArgument) && unchanged(transport)
      ensures values.Some? && |values.value| == 1 ==>
                Exchanged(transport, unitId, Apply(Returns(CreateWriteSingleRegisterPdu(address, values.value[0]))),
                          SingleWriteCheck(WriteSingleRegister, address, values.value[0]), r)
      ensures values.Some? && |values.value| > 1 ==>
                Exchanged(transport, unitId, Apply(CreateWriteMultipleRegistersPdu(address, values)),
                          MultipleWriteCheck(WriteMultipleRegisters, address, |values.value|), r)
      ensures values.Some? && |values.value| > MaxWriteRegisters ==> r.IsFailure() && unchanged(transport)
    {
      if values.None? {
        r := Failure(ArgumentNull);
        return;
      }
      var vals := values.value;
      if |vals| == 0 {
        r := Failure(BadArgument);
        return;
      }
      if |vals| == 1 {
        var built := Apply(Returns(CreateWriteSingleRegisterPdu(address, vals[0])));
        r := Exchange(unitId, built, SingleWriteCheck(WriteSingleRegister, address, vals[0]));
        return;
      }
      var built := Apply(CreateWriteMultipleRegistersPdu(address, values));
      r := Exchange(unitId, built, MultipleWriteCheck(WriteMultipleRegisters, address, |vals|));
    }

    /** WriteFile (function code 0x15): a null file fails at once; the echo is checked against the
        request that was sent. */
    method WriteFile(unitId: byte, fileNumber: ushort, recordSize: byte, recordNumber: ushort, file: Option<seq<byte>>)
      returns (r: Try<bool>)
      modifies transport
      ensures file.None? ==> r == TryFailure(ArgumentNull) && unchanged(transport)
      ensures file.Some? ==>
                Exchanged(transport, unitId, Apply(CreateWriteFilePdu(fileNumber, recordSize, recordNumber, file)),
                          FileWriteCheck(), r)
      ensures CreateWriteFilePdu(fileNumber, recordSize, recordNumber, file).Throws? ==> r.IsFailure() && unchanged(transport)
    {
      if file.None? {
        r := Failure(ArgumentNull);
        return;
      }
      var built := Apply(CreateWriteFilePdu(fileNumber, recordSize, recordNumber, file));
      r := Exchange(unitId, built, FileWriteCheck());
    }

    /** SendUserFunction: the function code followed by the data is sent as it is; the reply must
        start with the same function code. */
    method SendUserFunction(unitId: byte, functionCode: byte, data: seq<byte>) returns (r: Try<seq<byte>>)
      modifies transport
      ensures r == UserQuery(functionCode, old(transport.Sender(unitId))([functionCode] + data),
                             old(transport.NextReceive()))
      ensures transport.sent == old(transport.sent) + [Request(unitId, [functionCode] + data)]
      ensures transport.receives ==
                old(transport.receives) + if old(transport.Sender(unitId))([functionCode] + data).IsSuccess() then 1 else 0
    {
      var pdu := [functionCode] + data;
      var snd := transport.Send(unitId, pdu);
      if snd.IsSuccess() {
        var response := transport.Receive();
        r := SelectMany(snd, (s: bool) => response, (s: bool, res) => UnwrapUserFunctionPdu(functionCode, res));
      } else {
        r := Failure(snd.failure);
      }
    }
  }
}
