/**
 * src/association/initiate.rs: the xDLMS InitiateRequest and InitiateResponse carried in the
 * user-information field of the AARQ and AARE, in their A-XDR form: optional fields behind a
 * presence octet, single octets, the three conformance octets and big-endian u16 fields.
 */
module Initiate {
  import opened Bytes
  import opened Wire
  import C = Conformance

  /** `DLMS_VERSION` of src/association.rs. */
  const DlmsVersion: byte := 6

  /** The VAA names of src/association.rs: logical-name and short-name referencing. */
  const VaaNameLn: u16 := 0x0007
  const VaaNameSn: u16 := 0x0001

  datatype InitiateRequest = InitiateRequest(
    dedicatedKey: Option<seq<byte>>,
    responseAllowed: bool,
    proposedQualityOfService: Option<byte>,
    proposedDlmsVersionNumber: byte,
    proposedConformance: C.Conformance,
    clientMaxReceivePduSize: u16)

  datatype InitiateResponse = InitiateResponse(
    negotiatedQualityOfService: Option<byte>,
    negotiatedDlmsVersionNumber: byte,
    negotiatedConformance: C.Conformance,
    serverMaxReceivePduSize: u16,
    vaaName: u16)

  /** `InitiateRequest::new`: a response is asked for, version 6, no dedicated key, no quality of service. */
  function NewRequest(conformance: C.Conformance, maxPduSize: u16): (r: InitiateRequest)
    ensures r.responseAllowed && r.proposedDlmsVersionNumber == 6
    ensures r.dedicatedKey == None && r.proposedQualityOfService == None
    ensures r.proposedConformance == conformance && r.clientMaxReceivePduSize == maxPduSize
  {
    InitiateRequest(None, true, None, DlmsVersion, conformance, maxPduSize)
  }

  /** `InitiateResponse::new`: version 6 and no quality of service. */
  function NewResponse(conformance: C.Conformance, maxPduSize: u16, vaaName: u16): (r: InitiateResponse)
    ensures r.negotiatedDlmsVersionNumber == 6 && r.negotiatedQualityOfService == None
    ensures r.negotiatedConformance == conformance && r.serverMaxReceivePduSize == maxPduSize && r.vaaName == vaaName
  {
    InitiateResponse(None, DlmsVersion, conformance, maxPduSize, vaaName)
  }

  /** `InitiateRequest::new_ln`: the typical logical-name client offers GET, SET and ACTION, not READ or WRITE. */
  function NewRequestLn(maxPduSize: u16): (r: InitiateRequest)
    ensures r.responseAllowed && r.proposedDlmsVersionNumber == 6 && r.clientMaxReceivePduSize == maxPduSize
    ensures C.Contains(r.proposedConformance, C.Get) && C.Contains(r.proposedConformance, C.Set)
    ensures C.Contains(r.proposedConformance, C.Action) && !C.Contains(r.proposedConformance, C.Read)
  {
    C.TypicalClients();
    NewRequest(C.TypicalClientLn, maxPduSize)
  }

  /** `InitiateRequest::new_sn`: the typical short-name client offers READ and WRITE, not GET or SET. */
  function NewRequestSn(maxPduSize: u16): (r: InitiateRequest)
    ensures r.responseAllowed && r.proposedDlmsVersionNumber == 6 && r.clientMaxReceivePduSize == maxPduSize
    ensures C.Contains(r.proposedConformance, C.Read) && C.Contains(r.proposedConformance, C.Write)
    ensures !C.Contains(r.proposedConformance, C.Get) && !C.Contains(r.proposedConformance, C.Set)
  {
    C.TypicalClients();
    NewRequest(C.TypicalClientSn, maxPduSize)
  }

  /** `InitiateResponse::new_ln`: the response carries the logical-name VAA name. */
  function NewResponseLn(conformance: C.Conformance, maxPduSize: u16): (r: InitiateResponse)
    ensures r.vaaName == VaaNameLn && r.vaaName != VaaNameSn
    ensures r.negotiatedConformance == conformance && r.serverMaxReceivePduSize == maxPduSize
  {
    NewResponse(conformance, maxPduSize, VaaNameLn)
  }

  /** The conformance as three wire octets (`to_bytes`). */
  function ConformanceBytes(c: C.Conformance): (s: seq<byte>)
    ensures |s| == 3
  {
    var b := C.ToBytes(c);
    [b[0] as byte, b[1] as byte, b[2] as byte]
  }

  /** `take(3)` then `from_bytes`. */
  function ReadConformance(s: seq<byte>): (r: Option<(C.Conformance, seq<byte>)>)
    ensures r.Some? <==> |s| >= 3
    ensures r.Some? ==> C.Fits(r.value.0) && r.value.1 == s[3..]
  {
    if |s| < 3 then None else Some((C.FromBytes(s[0] as bv8, s[1] as bv8, s[2] as bv8), s[3..]))
  }

  lemma OctetBack(b: bv8)
    ensures ((b as int) as byte) as bv8 == b
  {
  }

  lemma ConformanceRoundTrip(c: C.Conformance, rest: seq<byte>)
    requires C.Fits(c)
    ensures ReadConformance(ConformanceBytes(c) + rest) == Some((c, rest))
  {
    var b := C.ToBytes(c);
    var s := ConformanceBytes(c) + rest;
    OctetBack(b[0]);
    OctetBack(b[1]);
    OctetBack(b[2]);
    assert s[0] as bv8 == b[0] && s[1] as bv8 == b[1] && s[2] as bv8 == b[2];
    C.BytesRoundTrip(c);
    assert s[3..] == rest;
  }

  /** An optional octet: `00`, or `01` and the octet. */
  function OptionalByteBytes(o: Option<byte>): (s: seq<byte>)
    ensures |s| == if o.Some? then 2 else 1
  {
    if o.Some? then [0x01, o.value] else [0x00]
  }

  /** Reading an optional octet: any non-zero presence octet means present. */
  function ReadOptionalByte(s: seq<byte>): (r: Option<(Option<byte>, seq<byte>)>)
    ensures r.Some? ==> |r.value.1| < |s|
  {
    match TakeByte(s)
    case None => None
    case Some((flag, s1)) =>
      if flag == 0 then Some((None, s1))
      else
        match TakeByte(s1)
        case None => None
        case Some((v, s2)) => Some((Some(v), s2))
  }

  lemma OptionalByteRoundTrip(o: Option<byte>, rest: seq<byte>)
    ensures ReadOptionalByte(OptionalByteBytes(o) + rest) == Some((o, rest))
  {
    if o.Some? {
      assert OptionalByteBytes(o) + rest == [0x01] + ([o.value] + rest);
      TakeByteOf(0x01, [o.value] + rest);
      TakeByteOf(o.value, rest);
    } else {
      TakeByteOf(0x00, rest);
    }
  }

  /** The dedicated key: `00`, or `01`, its length as one octet (`key.len() as u8`), and the key. */
  function KeyBytes(k: Option<seq<byte>>): (s: seq<byte>)
    ensures k.None? ==> s == [0x00]
    ensures k.Some? ==> |s| == 2 + |k.value|
  {
    if k.Some? then [0x01, |k.value| % 256] + k.value else [0x00]
  }

  function ReadKey(s: seq<byte>): (r: Option<(Option<seq<byte>>, seq<byte>)>)
    ensures r.Some? ==> |r.value.1| < |s|
  {
    match TakeByte(s)
    case None => None
    case Some((flag, s1)) =>
      if flag == 0 then Some((None, s1))
      else
        match TakeByte(s1)
        case None => None
        case Some((n, s2)) =>
          if |s2| < n then None else Some((Some(s2[..n]), s2[n..]))
  }

  lemma KeyRoundTrip(k: Option<seq<byte>>, rest: seq<byte>)
    requires k.Some? ==> |k.value| <= 255
    ensures ReadKey(KeyBytes(k) + rest) == Some((k, rest))
  {
    if k.Some? {
      var key := k.value;
      assert KeyBytes(k) + rest == [0x01] + ([|key|] + (key + rest));
      TakeByteOf(0x01, [|key|] + (key + rest));
      TakeByteOf(|key|, key + rest);
      assert (key + rest)[..|key|] == key;
      assert (key + rest)[|key|..] == rest;
    } else {
      TakeByteOf(0x00, rest);
    }
  }

  /** The one-octet key length wraps: a 256-octet key is written with length 0 and reads back as an empty key. */
  lemma LongKeyLengthWraps(key: seq<byte>, rest: seq<byte>)
    requires |key| == 256
    ensures ReadKey(KeyBytes(Some(key)) + rest) == Some((Some([]), key + rest))
  {
    assert KeyBytes(Some(key)) + rest == [0x01] + ([0] + (key + rest));
    TakeByteOf(0x01, [0] + (key + rest));
    TakeByteOf(0, key + rest);
  }

  /** The fields both APDUs share: the version octet, the conformance and a 16-bit PDU size. */
  function CoreBytes(version: byte, c: C.Conformance, pdu: u16): (s: seq<byte>)
    ensures |s| == 6
  {
    [version] + (ConformanceBytes(c) + U16Bytes(pdu))
  }

  function ReadCore(s: seq<byte>): (r: Option<((byte, C.Conformance, u16), seq<byte>)>)
    ensures r.Some? ==> |s| >= 6 && r.value.1 == s[6..]
  {
    match TakeByte(s)
    case None => None
    case Some((v, s1)) =>
      match ReadConformance(s1)
      case None => None
      case Some((c, s2)) =>
        match TakeU16(s2)
        case None => None
        case Some((p, s3)) => Some(((v, c, p), s3))
  }

  lemma CoreRoundTrip(version: byte, c: C.Conformance, pdu: u16, rest: seq<byte>)
    requires C.Fits(c)
    ensures ReadCore(CoreBytes(version, c, pdu) + rest) == Some(((version, c, pdu), rest))
  {
    Regroup([version], ConformanceBytes(c) + U16Bytes(pdu), rest);
    TakeByteOf(version, ConformanceBytes(c) + U16Bytes(pdu) + rest);
    Regroup(ConformanceBytes(c), U16Bytes(pdu), rest);
    ConformanceRoundTrip(c, U16Bytes(pdu) + rest);
    TakeU16Of(pdu, rest);
  }

  /** The A-XDR form of an InitiateRequest. */
  function RequestBytes(r: InitiateRequest): seq<byte> {
    KeyBytes(r.dedicatedKey)
      + ([if r.responseAllowed then 0x01 else 0x00]
      + (OptionalByteBytes(r.proposedQualityOfService)
      + CoreBytes(r.proposedDlmsVersionNumber, r.proposedConformance, r.clientMaxReceivePduSize)))
  }

  /** `InitiateRequest::encode`, pushing field after field. */
  method EncodeRequest(r: InitiateRequest) returns (buf: seq<byte>)
    ensures buf == RequestBytes(r)
  {
    buf := [];
    if r.dedicatedKey.Some? {
      var key := r.dedicatedKey.value;
      buf := buf + [0x01];
      buf := buf + [|key| % 256];
      buf := buf + key;
    } else {
      buf := buf + [0x00];
    }
    var kb := buf;
    buf := buf + [if r.responseAllowed then 0x01 else 0x00];
    if r.proposedQualityOfService.Some? {
      buf := buf + [0x01, r.proposedQualityOfService.value];
    } else {
      buf := buf + [0x00];
    }
    buf := buf + [r.proposedDlmsVersionNumber];
    buf := buf + ConformanceBytes(r.proposedConformance);
    buf := buf + U16Bytes(r.clientMaxReceivePduSize);
    RequestShape(r, kb, buf);
  }

  lemma RequestShape(r: InitiateRequest, kb: seq<byte>, buf: seq<byte>)
    requires kb == KeyBytes(r.dedicatedKey)
    requires buf == kb + [if r.responseAllowed then 0x01 else 0x00] + OptionalByteBytes(r.proposedQualityOfService)
      + [r.proposedDlmsVersionNumber] + ConformanceBytes(r.proposedConformance) + U16Bytes(r.clientMaxReceivePduSize)
    ensures buf == RequestBytes(r)
  {
  }

  /** `InitiateRequest::encoded_len`, summing field by field: it is the size of the encoding. */
  method RequestEncodedLen(r: InitiateRequest) returns (len: nat)
    ensures len == |RequestBytes(r)|
  {
    len := 0;
    len := len + 1;
    if r.dedicatedKey.Some? {
      len := len + 1 + |r.dedicatedKey.value|;
    }
    len := len + 1;
    len := len + 1;
    if r.proposedQualityOfService.Some? {
      len := len + 1;
    }
    len := len + 1;
    len := len + 3;
    len := len + 2;
  }

  /** `InitiateRequest::parse`. */
  function ParseRequest(s: seq<byte>): (r: Option<(InitiateRequest, seq<byte>)>)
    ensures r.Some? ==> |r.value.1| < |s|
  {
    match ReadKey(s)
    case None => None
    case Some((key, s1)) =>
      match TakeByte(s1)
      case None => None
      case Some((allowed, s2)) =>
        match ReadOptionalByte(s2)
        case None => None
        case Some((qos, s3)) =>
          match ReadCore(s3)
          case None => None
          case Some(((v, c, p), s4)) => Some((InitiateRequest(key, allowed != 0, qos, v, c, p), s4))
  }

  /** The requests the encoding keeps intact: a key whose length fits its one length octet, a 24-bit conformance. */
  predicate RequestRestorable(r: InitiateRequest) {
    (r.dedicatedKey.Some? ==> |r.dedicatedKey.value| <= 255) && C.Fits(r.proposedConformance)
  }

  /** Every such InitiateRequest parses back, the octets after it left over. */
  lemma RequestRoundTrip(r: InitiateRequest, rest: seq<byte>)
    requires RequestRestorable(r)
    ensures ParseRequest(RequestBytes(r) + rest) == Some((r, rest))
  {
    var b: byte := if r.responseAllowed then 0x01 else 0x00;
    var core := CoreBytes(r.proposedDlmsVersionNumber, r.proposedConformance, r.clientMaxReceivePduSize);
    var q := OptionalByteBytes(r.proposedQualityOfService);
    Regroup(KeyBytes(r.dedicatedKey), [b] + (q + core), rest);
    KeyRoundTrip(r.dedicatedKey, [b] + (q + core) + rest);
    Regroup([b], q + core, rest);
    TakeByteOf(b, q + core + rest);
    Regroup(q, core, rest);
    OptionalByteRoundTrip(r.proposedQualityOfService, core + rest);
    CoreRoundTrip(r.proposedDlmsVersionNumber, r.proposedConformance, r.clientMaxReceivePduSize, rest);
  }

  /** The library's layout without key or quality of service: `00 01 00 06`, the conformance, the PDU size. */
  lemma NewRequestLayout(c: C.Conformance, maxPduSize: u16)
    ensures RequestBytes(NewRequest(c, maxPduSize)) == [0x00, 0x01, 0x00, 0x06] + ConformanceBytes(c) + U16Bytes(maxPduSize)
    ensures |RequestBytes(NewRequest(c, maxPduSize))| == 9
  {
  }

  /** The A-XDR form of an InitiateResponse. */
  function ResponseBytes(r: InitiateResponse): seq<byte> {
    OptionalByteBytes(r.negotiatedQualityOfService)
      + (CoreBytes(r.negotiatedDlmsVersionNumber, r.negotiatedConformance, r.serverMaxReceivePduSize) + U16Bytes(r.vaaName))
  }

  /** `InitiateResponse::encode`. */
  method EncodeResponse(r: InitiateResponse) returns (buf: seq<byte>)
    ensures buf == ResponseBytes(r)
  {
    buf := [];
    if r.negotiatedQualityOfService.Some? {
      buf := buf + [0x01, r.negotiatedQualityOfService.value];
    } else {
      buf := buf + [0x00];
    }
    buf := buf + [r.negotiatedDlmsVersionNumber];
    buf := buf + ConformanceBytes(r.negotiatedConformance);
    buf := buf + U16Bytes(r.serverMaxReceivePduSize);
    buf := buf + U16Bytes(r.vaaName);
  }

  /** `InitiateResponse::encoded_len`: the size of the encoding. */
  method ResponseEncodedLen(r: InitiateResponse) returns (len: nat)
    ensures len == |ResponseBytes(r)|
  {
    len := 0;
    len := len + 1;
    if r.negotiatedQualityOfService.Some? {
      len := len + 1;
    }
    len := len + 1;
    len := len + 3;
    len := len + 2;
    len := len + 2;
  }

  /** `InitiateResponse::parse`. */
  function ParseResponse(s: seq<byte>): (r: Option<(InitiateResponse, seq<byte>)>)
    ensures r.Some? ==> |r.value.1| < |s|
  {
    match ReadOptionalByte(s)
    case None => None
    case Some((qos, s1)) =>
      match ReadCore(s1)
      case None => None
      case Some(((v, c, p), s2)) =>
        match TakeU16(s2)
        case None => None
        case Some((vaa, s3)) => Some((InitiateResponse(qos, v, c, p, vaa), s3))
  }

  lemma ResponseRoundTrip(r: InitiateResponse, rest: seq<byte>)
    requires C.Fits(r.negotiatedConformance)
    ensures ParseResponse(ResponseBytes(r) + rest) == Some((r, rest))
  {
    var q := OptionalByteBytes(r.negotiatedQualityOfService);
    var core := CoreBytes(r.negotiatedDlmsVersionNumber, r.negotiatedConformance, r.serverMaxReceivePduSize);
    var vaa := U16Bytes(r.vaaName);
    Regroup(q, core + vaa, rest);
    OptionalByteRoundTrip(r.negotiatedQualityOfService, core + vaa + rest);
    Regroup(core, vaa, rest);
    CoreRoundTrip(r.negotiatedDlmsVersionNumber, r.negotiatedConformance, r.serverMaxReceivePduSize, vaa + rest);
    TakeU16Of(r.vaaName, rest);
  }

  /** The library's response example: no QoS, version 6, GET only, PDU size 0x0400, the LN VAA name. */
  lemma ResponseExample()
    ensures ResponseBytes(NewResponse(C.FromBits(0x0000_8000), 0x0400, VaaNameLn))
      == [0x00, 0x06, 0x00, 0x80, 0x00, 0x04, 0x00, 0x00, 0x07]
  {
    U16Digits(0x0400);
    U16Digits(0x0007);
  }
}
