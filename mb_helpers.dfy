/** The MBAP header of MODBUS over TCP (MODBUS Messaging on TCP/IP Implementation Guide,
    section 3.1.3): transaction id, protocol id 0, length of what follows, unit id. */
module MbHelpers {
  import opened Codes
  import opened TryMonad
  import opened Codec

  /** The header fields a master keeps from a received ADU, and the PDU that follows them. */
  datatype Mbap = Mbap(transId: ushort, unitId: byte, pdu: seq<byte>)

  /** Length of the MBAP header, unit id included. */
  const HeaderLength := 7

  /** Splits an ADU into header fields and PDU; a frame shorter than the header, with a non-zero
      protocol id, or whose length field disagrees with its size is rejected. */
  function UnwrapMbapHeader(adu: seq<byte>): (r: Outcome<Mbap>)
    ensures r.Throws? <==>
              (|adu| < HeaderLength || Word(adu[2], adu[3]) != 0 || Word(adu[4], adu[5]) != |adu| - 6)
    ensures r.Throws? ==> r.error == BadArgument
    ensures r.Returns? ==>
              && r.value.transId == Word(adu[0], adu[1])
              && r.value.unitId == adu[6]
              && r.value.pdu == adu[HeaderLength..]
              && |r.value.pdu| == Word(adu[4], adu[5]) - 1
  {
    if |adu| < HeaderLength then Throws(BadArgument)
    else if Word(adu[2], adu[3]) != 0 then Throws(BadArgument)
    else if Word(adu[4], adu[5]) != |adu| - 6 then Throws(BadArgument)
    else Returns(Mbap(Word(adu[0], adu[1]), adu[6], adu[HeaderLength..]))
  }

  /** `(byte)(x >> 8)` for any `int`: the arithmetic shift floors, the cast keeps the low byte. */
  function HiOfInt(x: int): (b: byte)
    ensures 0 <= x < 0x1_0000 ==> b == Hi(x)
  {
    (x / 256) % 256
  }

  /** `(byte)x` and `(byte)(x & 0xff)` for any `int`: the low byte in two's complement. */
  function LoOfInt(x: int): (b: byte)
    ensures 0 <= x < 0x1_0000 ==> b == Lo(x)
  {
    x % 256
  }

  /** The frame GenerateResponse builds: the header for `transId` and `unitId`, then `buffer`.
      Wider values are cut to their low 16 bits, as the byte casts do. */
  function MbapFrame(transId: int, unitId: byte, buffer: seq<byte>): (frame: seq<byte>)
    ensures |frame| == HeaderLength + |buffer|
    ensures frame[HeaderLength..] == buffer
  {
    [HiOfInt(transId), LoOfInt(transId), 0, 0, HiOfInt(|buffer| + 1), LoOfInt(|buffer| + 1), unitId] + buffer
  }

  /** A frame built for a 16-bit transaction id and a buffer whose length fits the length field
      unwraps to the same transaction id, unit id and buffer. */
  lemma UnwrapFrame(transId: ushort, unitId: byte, buffer: seq<byte>)
    requires |buffer| + 1 < 0x1_0000
    ensures UnwrapMbapHeader(MbapFrame(transId, unitId, buffer)) == Returns(Mbap(transId, unitId, buffer))
  {
    var frame := MbapFrame(transId, unitId, buffer);
    WordOfHalves(transId);
    WordOfHalves(|buffer| + 1);
    assert Word(frame[0], frame[1]) == transId;
    assert Word(frame[4], frame[5]) == |buffer| + 1;
  }

  /** Every ADU that unwraps is the frame of its own header fields and PDU: nothing is lost. */
  lemma FrameOfUnwrapped(adu: seq<byte>)
    requires UnwrapMbapHeader(adu).Returns?
    ensures var m := UnwrapMbapHeader(adu).value; MbapFrame(m.transId, m.unitId, m.pdu) == adu
  {
    var m := UnwrapMbapHeader(adu).value;
    var frame := MbapFrame(m.transId, m.unitId, m.pdu);
    assert frame[..HeaderLength] == adu[..HeaderLength];
    assert frame == frame[..HeaderLength] + frame[HeaderLength..];
    assert adu == adu[..HeaderLength] + adu[HeaderLength..];
  }
}
