/** Byte-sized values and the Modbus vocabulary: function codes and exception codes. */
module Codes {

  /** An unsigned 8-bit value (C# `byte`). */
  type byte = x: int | 0 <= x < 256

  /** An unsigned 16-bit value (C# `ushort`). */
  type ushort = x: int | 0 <= x < 0x1_0000

  /** The function codes the library builds or answers (MbFunctionCode). */
  datatype FunctionCode =
    | ReadCoils
    | ReadDiscreteInputs
    | ReadHoldingRegisters
    | ReadInputRegisters
    | WriteSingleCoil
    | WriteSingleRegister
    | WriteMultipleCoils
    | WriteMultipleRegisters
    | WriteFile
  {
    /** The byte carried in the first position of a PDU. */
    function ToByte(): (b: byte)
      ensures 0 < b < 0x80
    {
      match this
      case ReadCoils => 0x01
      case ReadDiscreteInputs => 0x02
      case ReadHoldingRegisters => 0x03
      case ReadInputRegisters => 0x04
      case WriteSingleCoil => 0x05
      case WriteSingleRegister => 0x06
      case WriteMultipleCoils => 0x0f
      case WriteMultipleRegisters => 0x10
      case WriteFile => 0x15
    }
  }

  /** The function code a PDU byte names, if it names one. */
  function FunctionCodeOf(b: byte): (r: Option<FunctionCode>)
    ensures r.Some? ==> r.value.ToByte() == b
    ensures forall f: FunctionCode :: f.ToByte() == b ==> r == Some(f)
  {
    match b
    case 0x01 => Some(ReadCoils)
    case 0x02 => Some(ReadDiscreteInputs)
    case 0x03 => Some(ReadHoldingRegisters)
    case 0x04 => Some(ReadInputRegisters)
    case 0x05 => Some(WriteSingleCoil)
    case 0x06 => Some(WriteSingleRegister)
    case 0x0f => Some(WriteMultipleCoils)
    case 0x10 => Some(WriteMultipleRegisters)
    case 0x15 => Some(WriteFile)
    case _ => None
  }

  /** The exception codes of the MODBUS Application Protocol, section 7 (ModbusExceptionCode). */
  datatype ExceptionCode =
    | Ok
    | IllegalFunction
    | IllegalDataAddress
    | IllegalDataValue
    | SlaveDeviceFailure
    | Acknowledge
    | SlaveDeviceBusy
    | MemoryParityError
    | GatewayPathUnavailable
    | GatewayTargetDeviceFailedToRespond
  {
    /** The byte carried after the function code in an exception response. */
    function ToByte(): (b: byte)
      ensures b == 0 <==> this == Ok
      ensures b <= 0x0b && b != 7 && b != 9
    {
      match this
      case Ok => 0x00
      case IllegalFunction => 0x01
      case IllegalDataAddress => 0x02
      case IllegalDataValue => 0x03
      case SlaveDeviceFailure => 0x04
      case Acknowledge => 0x05
      case SlaveDeviceBusy => 0x06
      case MemoryParityError => 0x08
      case GatewayPathUnavailable => 0x0a
      case GatewayTargetDeviceFailedToRespond => 0x0b
    }
  }

  /** Distinct exception codes are carried by distinct bytes. */
  lemma ExceptionCodeInjective(a: ExceptionCode, b: ExceptionCode)
    ensures a.ToByte() == b.ToByte() <==> a == b
  {
  }

  datatype Option<+T> = None | Some(value: T)
}
