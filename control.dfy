/**
 * src/control_information.rs: the M-Bus control-information octet, which says whether a
 * telegram is one segment of a longer message or a whole message with a short or long header.
 */
module ControlInfo {
  import opened Bytes

  datatype HeaderType = Short | Long
  datatype Direction = MasterSlave | SlaveMaster

  datatype ControlInformation =
    | Segmented(segment: byte, lastSegment: bool)
    | Unsegmented(header: HeaderType, direction: Direction)

  /**
   * `ControlInformation::try_from(u8)`: 0x00-0x1F are segments (the number in the low four
   * bits, bit 4 for the last one); 0x60, 0x61, 0x7C and 0x7D are whole messages; any other
   * octet is returned as the error.
   */
  function FromByte(ci: byte): Result<ControlInformation, byte> {
    if ci <= 0x1F then
      Ok(Segmented(((ci as bv8) & 0x0F) as byte, (ci as bv8) & 0x10 != 0))
    else if ci == 0x60 then Ok(Unsegmented(Long, MasterSlave))
    else if ci == 0x61 then Ok(Unsegmented(Short, MasterSlave))
    else if ci == 0x7C then Ok(Unsegmented(Long, SlaveMaster))
    else if ci == 0x7D then Ok(Unsegmented(Short, SlaveMaster))
    else Err(ci)
  }

  /** The octet a control information is written as: the reference the conversion is checked against. */
  function ToByte(c: ControlInformation): byte
    requires c.Segmented? ==> c.segment < 16
  {
    match c
    case Segmented(n, last) => n + (if last then 16 else 0)
    case Unsegmented(Long, MasterSlave) => 0x60
    case Unsegmented(Short, MasterSlave) => 0x61
    case Unsegmented(Long, SlaveMaster) => 0x7C
    case Unsegmented(Short, SlaveMaster) => 0x7D
  }

  /** The accepted octets. */
  predicate IsControlByte(ci: byte) {
    ci <= 0x1F || ci == 0x60 || ci == 0x61 || ci == 0x7C || ci == 0x7D
  }

  /** The conversion succeeds exactly on the listed octets, and returns any other octet unchanged. */
  lemma FromByteDomain(ci: byte)
    ensures FromByte(ci).Ok? <==> IsControlByte(ci)
    ensures FromByte(ci).Err? ==> FromByte(ci).error == ci
  {
  }

  lemma SegmentBits(ci: byte)
    requires ci <= 0x1F
    ensures ((ci as bv8) & 0x0F) as int == ci % 16
    ensures ((ci as bv8) & 0x10 != 0) <==> ci >= 16
  {
    var b := ci as bv8;
    assert b == (ci % 16) as bv8 | (if ci >= 16 then 0x10 else 0x00);
  }

  /** Every accepted octet is the encoding of what it decodes to. */
  lemma FromByteInjective(ci: byte)
    requires FromByte(ci).Ok?
    ensures FromByte(ci).value.Segmented? ==> FromByte(ci).value.segment < 16
    ensures ToByte(FromByte(ci).value) == ci
  {
    if ci <= 0x1F {
      SegmentBits(ci);
    }
  }

  /** Every control information with a 4-bit segment number decodes from its octet. */
  lemma ToByteRoundTrip(c: ControlInformation)
    requires c.Segmented? ==> c.segment < 16
    ensures FromByte(ToByte(c)) == Ok(c)
  {
    if c.Segmented? {
      SegmentBits(ToByte(c));
    }
  }
}
