/** Respond of the older stand-alone slave (ModbusTcpSlave): it checks the MBAP header but its
    switch handles no function, so every framed request is refused as an illegal function. */
module LegacyTcpSlave {
  import opened Codes
  import opened TryMonad
  import opened Codec
  import opened MbHelpers
  import opened ModbusFunctions

  /** The answer to a request: nothing when the protocol id is not 0 or the length field does not
      account for every byte after the sixth, otherwise the IllegalFunction exception reply. There
      is no minimum length: the header is read from the receive buffer whatever was received. */
  function LegacyReply(request: seq<byte>, requestLength: int): (r: seq<byte>)
    requires |request| >= 12
    ensures r == [] <==> Word(request[2], request[3]) != 0 || Word(request[4], request[5]) as int + 6 != requestLength
    ensures r != [] ==> |r| == 9 && r[6] == request[6] && r[7] == SetHighBit(request[7]) && r[8] == IllegalFunction.ToByte()
  {
    var transId := Word(request[0], request[1]);
    var protoId := Word(request[2], request[3]);
    var length := Word(request[4], request[5]);
    if protoId != 0 || length as int + 6 != requestLength then []
    else ExceptionFrame(transId, request[6], request[7], IllegalFunction)
  }

  /** The only non-empty answer is a nine-byte IllegalFunction exception reply echoing the
      request's transaction id, unit id and function code; and it is given exactly to requests
      whose protocol id is 0 and whose length field matches. */
  lemma LegacyAlwaysRefuses(request: seq<byte>, requestLength: int)
    requires |request| >= 12
    ensures var r := LegacyReply(request, requestLength);
            && (r != [] <==> Word(request[2], request[3]) == 0 && Word(request[4], request[5]) as int + 6 == requestLength)
            && (r != [] ==>
                  && |r| == 9 && r[5] == 3 && r[8] == IllegalFunction.ToByte()
                  && UnwrapMbapHeader(r) == Returns(Mbap(Word(request[0], request[1]), request[6], [SetHighBit(request[7]), 1])))
  {
    var transId := Word(request[0], request[1]);
    var buffer := [SetHighBit(request[7]), IllegalFunction.ToByte()];
    if LegacyReply(request, requestLength) != [] {
      assert LegacyReply(request, requestLength) == MbapFrame(transId, request[6], buffer);
      UnwrapFrame(transId, request[6], buffer);
    }
  }

  /** Respond, over the connection's receive buffer; the address and count it decodes for code 1
      are not used. */
  method Respond(request: array<byte>, requestLength: int) returns (response: array<byte>)
    requires request.Length >= 12
    ensures fresh(response)
    ensures response[..] == LegacyReply(request[..], requestLength)
  {
    var transId := Word(request[0], request[1]);
    var protoId := Word(request[2], request[3]);
    var length := Word(request[4], request[5]);
    var unitId := request[6];
    if protoId != 0 {
      response := new byte[0];
      return;
    }
    if length as int + 6 != requestLength {
      response := new byte[0];
      return;
    }
    var functionCode := request[7];
    var address := 65536;
    var count := 0;
    var responseCode := IllegalFunction;
    match functionCode {
      case 1 =>
        address := Word(request[8], request[9]);
        count := Word(request[10], request[11]);
      case _ =>
    }
    response := new byte[0];
    if responseCode != Ok {
      response := GenerateExceptionResponse(transId, unitId, functionCode, responseCode);
    }
  }
}
