/**
 * src/get.rs: the GET service APDUs, GET-Request (tag 0xC0) and GET-Response (tag 0xC4),
 * each a choice byte followed by the fields of that choice.
 */
module GetService {
  import opened Bytes
  import opened Wire
  import AxdrData
  import Obis

  // ---------------------------------------------------------------------------
  // Data-Access-Result
  // ---------------------------------------------------------------------------

  /** The codes `DataAccessResult` declares: 0-4, 9, 11-19 and 250. */
  predicate IsAccessResultCode(b: int) {
    0 <= b <= 4 || b == 9 || 11 <= b <= 19 || b == 250
  }

  /** The enum is `repr(u8)`, so a result is its code and `as u8` is the identity. */
  type DataAccessResult = b: byte | IsAccessResultCode(b)

  const Success: DataAccessResult := 0
  const HardwareFault: DataAccessResult := 1
  const TemporaryFailure: DataAccessResult := 2
  const ReadWriteDenied: DataAccessResult := 3
  const ObjectUndefined: DataAccessResult := 4
  const ObjectClassInconsistent: DataAccessResult := 9
  const ObjectUnavailable: DataAccessResult := 11
  const TypeUnmatched: DataAccessResult := 12
  const ScopeOfAccessViolated: DataAccessResult := 13
  const DataBlockUnavailable: DataAccessResult := 14
  const LongGetAborted: DataAccessResult := 15
  const NoLongGetInProgress: DataAccessResult := 16
  const LongSetAborted: DataAccessResult := 17
  const NoLongSetInProgress: DataAccessResult := 18
  const DataBlockNumberInvalid: DataAccessResult := 19
  const OtherReason: DataAccessResult := 250

  /** `DataAccessResult::from_u8`. */
  function AccessResultFromByte(b: byte): Option<DataAccessResult> {
    match b
    case 0 => Some(Success)
    case 1 => Some(HardwareFault)
    case 2 => Some(TemporaryFailure)
    case 3 => Some(ReadWriteDenied)
    case 4 => Some(ObjectUndefined)
    case 9 => Some(ObjectClassInconsistent)
    case 11 => Some(ObjectUnavailable)
    case 12 => Some(TypeUnmatched)
    case 13 => Some(ScopeOfAccessViolated)
    case 14 => Some(DataBlockUnavailable)
    case 15 => Some(LongGetAborted)
    case 16 => Some(NoLongGetInProgress)
    case 17 => Some(LongSetAborted)
    case 18 => Some(NoLongSetInProgress)
    case 19 => Some(DataBlockNumberInvalid)
    case 250 => Some(OtherReason)
    case _ => None
  }

  /** `from_u8` is defined exactly on the declared codes and inverts `as u8` there. */
  lemma AccessResultFromByteExact(b: byte)
    ensures AccessResultFromByte(b).Some? <==> IsAccessResultCode(b)
    ensures AccessResultFromByte(b).Some? ==> AccessResultFromByte(b).value == b
  {
  }

  lemma AccessResultRoundTrip(e: DataAccessResult)
    ensures AccessResultFromByte(e) == Some(e)
  {
    AccessResultFromByteExact(e);
  }

  // ---------------------------------------------------------------------------
  // Attribute descriptors and access selection
  // ---------------------------------------------------------------------------

  /** A COSEM attribute: class id, logical name and (signed) attribute index. */
  datatype AttributeDescriptor = AttributeDescriptor(classId: u16, instanceId: Obis.ObisCode, attributeId: i8)

  /** `push_u16(class_id)`, the six OBIS octets, then `attribute_id as u8`. */
  function DescriptorBytes(d: AttributeDescriptor): (s: seq<byte>)
    ensures |s| == 9
  {
    U16Bytes(d.classId) + Obis.Encode(d.instanceId) + [ToTwos(d.attributeId, 1)]
  }

  /** `be_u16`, `ObisCode::parse`, then one octet read back `as i8`. */
  function ParseDescriptor(s: seq<byte>): (r: Option<(AttributeDescriptor, seq<byte>)>)
    ensures r.Some? <==> |s| >= 9
    ensures r.Some? ==> r.value.1 == s[9..]
  {
    match TakeU16(s)
    case None => None
    case Some((classId, s1)) =>
      match Obis.Parse(s1)
      case None => None
      case Some((instanceId, s2)) =>
        match TakeByte(s2)
        case None => None
        case Some((a, s3)) => Some((AttributeDescriptor(classId, instanceId, FromTwos(a, 1)), s3))
  }

  lemma {:induction false} DescriptorRoundTrip(d: AttributeDescriptor, rest: seq<byte>)
    ensures ParseDescriptor(DescriptorBytes(d) + rest) == Some((d, rest))
  {
    var tail := Obis.Encode(d.instanceId) + ([ToTwos(d.attributeId, 1)] + rest);
    assert DescriptorBytes(d) + rest == U16Bytes(d.classId) + tail;
    TakeU16Of(d.classId, tail);
    Obis.ParseEncode(d.instanceId, [ToTwos(d.attributeId, 1)] + rest);
    TakeByteOf(ToTwos(d.attributeId, 1), rest);
    TwosRoundTrip(d.attributeId, 1);
  }

  /** A signed index survives the octet cast: -1 is written as 0xFF and read back as -1. */
  lemma AttributeIdCast()
    ensures ToTwos(-1, 1) == 0xFF && FromTwos(0xFF, 1) == -1
  {
  }

  /** Selective access: a selector octet and its parameters as a Data value. */
  datatype AccessSelector = AccessSelector(selector: byte, parameters: AxdrData.Data)

  /** 0x00 when absent; 0x01, the selector and the encoded parameters when present. */
  function AccessBytes(a: Option<AccessSelector>): (s: seq<byte>)
    ensures |s| >= 1 && (s[0] == 0x01 <==> a.Some?)
  {
    match a
    case None => [0x00]
    case Some(sel) => [0x01, sel.selector] + AxdrData.Encoding(sel.parameters)
  }

  /** Only a flag of exactly 0x01 announces a selector; any other flag octet means none. */
  function ParseAccess(s: seq<byte>): Option<(Option<AccessSelector>, seq<byte>)> {
    match TakeByte(s)
    case None => None
    case Some((flag, s1)) =>
      if flag != 0x01 then Some((None, s1))
      else
        match TakeByte(s1)
        case None => None
        case Some((selector, s2)) =>
          match AxdrData.Parse(s2)
          case None => None
          case Some((parameters, s3)) => Some((Some(AccessSelector(selector, parameters)), s3))
  }

  predicate AccessWellFormed(a: Option<AccessSelector>) {
    a.Some? ==> AxdrData.WellFormed(a.value.parameters)
  }

  lemma {:induction false} AccessRoundTrip(a: Option<AccessSelector>, rest: seq<byte>)
    requires AccessWellFormed(a)
    ensures ParseAccess(AccessBytes(a) + rest) == Some((a, rest))
  {
    match a
    case None =>
      TakeByteOf(0x00, rest);
    case Some(sel) =>
      var tail := AxdrData.Encoding(sel.parameters) + rest;
      assert AccessBytes(a) + rest == [0x01] + ([sel.selector] + tail);
      TakeByteOf(0x01, [sel.selector] + tail);
      TakeByteOf(sel.selector, tail);
      AxdrData.ParseEncoding(sel.parameters, rest);
  }

  /** A flag octet other than 0x01 is read as "no selector", whatever follows. */
  lemma AccessFlagLenient(flag: byte, rest: seq<byte>)
    requires flag != 0x01
    ensures ParseAccess([flag] + rest) == Some((None, rest))
  {
    TakeByteOf(flag, rest);
  }

  // ---------------------------------------------------------------------------
  // GET-Request
  // ---------------------------------------------------------------------------

  datatype GetRequest =
    | RequestNormal(invokeId: byte, descriptor: AttributeDescriptor, accessSelection: Option<AccessSelector>)
    | RequestNext(invokeId: byte, blockNumber: u32)
    | RequestWithList(invokeId: byte, descriptors: seq<AttributeDescriptor>)

  /** What `encode` writes: tag 0xC0, the choice (1, 2 or 3), then the choice's fields. */
  function RequestBytes(r: GetRequest): (s: seq<byte>)
    ensures |s| >= 3 && s[0] == 0xC0 && s[2] == r.invokeId
    ensures r.RequestNormal? ==> s[1] == 0x01
    ensures r.RequestNext? ==> s[1] == 0x02 && |s| == 7
    ensures r.RequestWithList? ==> s[1] == 0x03 && |s| == 4 + 9 * |r.descriptors|
  {
    match r
    case RequestNormal(id, d, a) => [0xC0, 0x01, id] + DescriptorBytes(d) + AccessBytes(a)
    case RequestNext(id, n) => [0xC0, 0x02, id] + U32Bytes(n)
    case RequestWithList(id, ds) =>
      DescriptorsLength(ds);
      [0xC0, 0x03, id, |ds| % 256] + EncodeMany(DescriptorBytes, ds)
  }

  lemma {:induction false} DescriptorsLength(ds: seq<AttributeDescriptor>)
    ensures |EncodeMany(DescriptorBytes, ds)| == 9 * |ds|
    decreases |ds|
  {
    if |ds| > 0 {
      DescriptorsLength(ds[1..]);
    }
  }

  /** `GetRequest::encode`: pushes the fields into `buf`, with a loop over the descriptor list. */
  method EncodeRequest(r: GetRequest) returns (buf: seq<byte>)
    ensures buf == RequestBytes(r)
  {
    buf := [0xC0];
    match r
    case RequestNormal(id, d, a) =>
      buf := buf + [0x01, id];
      buf := buf + DescriptorBytes(d);
      buf := buf + AccessBytes(a);
    case RequestNext(id, n) =>
      buf := buf + [0x02, id] + U32Bytes(n);
    case RequestWithList(id, ds) =>
      buf := buf + [0x03, id, |ds| % 256];
      buf := AppendMany(buf, DescriptorBytes, ds);
  }

  /** `GetRequest::parse`: the tag must be 0xC0 and the choice 1, 2 or 3. */
  function ReadRequest(input: seq<byte>): Option<(GetRequest, seq<byte>)> {
    match TakeByte(input)
    case None => None
    case Some((tag, s1)) =>
      if tag != 0xC0 then None
      else
        match TakeByte(s1)
        case None => None
        case Some((choice, s2)) =>
          if choice == 0x01 then ReadNormalRequest(s2)
          else if choice == 0x02 then ReadNextRequest(s2)
          else if choice == 0x03 then ReadListRequest(s2)
          else None
  }

  function ReadNormalRequest(s: seq<byte>): Option<(GetRequest, seq<byte>)> {
    match TakeByte(s)
    case None => None
    case Some((id, s1)) =>
      match ParseDescriptor(s1)
      case None => None
      case Some((d, s2)) =>
        match ParseAccess(s2)
        case None => None
        case Some((a, s3)) => Some((RequestNormal(id, d, a), s3))
  }

  function ReadNextRequest(s: seq<byte>): Option<(GetRequest, seq<byte>)> {
    match TakeByte(s)
    case None => None
    case Some((id, s1)) =>
      match TakeU32(s1)
      case None => None
      case Some((n, s2)) => Some((RequestNext(id, n), s2))
  }

  function ReadListRequest(s: seq<byte>): Option<(GetRequest, seq<byte>)> {
    match TakeByte(s)
    case None => None
    case Some((id, s1)) =>
      match TakeByte(s1)
      case None => None
      case Some((count, s2)) =>
        match ParseMany(ParseDescriptor, s2, count)
        case None => None
        case Some((ds, s3)) => Some((RequestWithList(id, ds), s3))
  }

  /** `GetRequest::parse`, with the descriptor loop of the list choice. */
  method ParseRequest(input: seq<byte>) returns (r: Option<(GetRequest, seq<byte>)>)
    ensures r == ReadRequest(input)
  {
    if |input| < 2 || input[0] != 0xC0 {
      return ReadRequest(input);
    }
    var choice := input[1];
    if choice != 0x03 {
      return ReadRequest(input);
    }
    if |input| < 4 {
      return None;
    }
    var id := input[2];
    var count := input[3];
    var list := ParseManyLoop(ParseDescriptor, input[4..], count);
    assert input[1..][1..][1..][1..] == input[4..];
    match list
    case None => r := None;
    case Some((ds, rest)) => r := Some((RequestWithList(id, ds), rest));
  }

  /** What the encoding can carry: selector parameters the Data codec reads back, at most 255 descriptors. */
  predicate RequestWellFormed(r: GetRequest) {
    match r
    case RequestNormal(_, _, a) => AccessWellFormed(a)
    case RequestNext(_, _) => true
    case RequestWithList(_, ds) => |ds| <= 255
  }

  /** Parsing what `encode` wrote, followed by anything, gives the request back and stops at the rest. */
  lemma {:induction false} RequestRoundTrip(r: GetRequest, rest: seq<byte>)
    requires RequestWellFormed(r)
    ensures ReadRequest(RequestBytes(r) + rest) == Some((r, rest))
  {
    match r
    case RequestNormal(id, d, a) => NormalRequestRoundTrip(r, rest);
    case RequestNext(id, n) => NextRequestRoundTrip(r, rest);
    case RequestWithList(id, ds) => ListRequestRoundTrip(r, rest);
  }

  /** The tag and choice octets select the reader of the choice's fields. */
  lemma ReadRequestChoice(choice: byte, body: seq<byte>)
    ensures ReadRequest([0xC0, choice] + body)
      == if choice == 0x01 then ReadNormalRequest(body)
         else if choice == 0x02 then ReadNextRequest(body)
         else if choice == 0x03 then ReadListRequest(body)
         else None
  {
    TakeByteOf(0xC0, [choice] + body);
    TakeByteOf(choice, body);
    assert [0xC0, choice] + body == [0xC0] + ([choice] + body);
  }

  lemma {:induction false} NormalRequestRoundTrip(r: GetRequest, rest: seq<byte>)
    requires r.RequestNormal? && RequestWellFormed(r)
    ensures ReadRequest(RequestBytes(r) + rest) == Some((r, rest))
  {
    var tail := AccessBytes(r.accessSelection) + rest;
    var body := DescriptorBytes(r.descriptor) + tail;
    assert RequestBytes(r) + rest == [0xC0, 0x01] + ([r.invokeId] + body);
    ReadRequestChoice(0x01, [r.invokeId] + body);
    TakeByteOf(r.invokeId, body);
    DescriptorRoundTrip(r.descriptor, tail);
    AccessRoundTrip(r.accessSelection, rest);
  }

  lemma {:induction false} NextRequestRoundTrip(r: GetRequest, rest: seq<byte>)
    requires r.RequestNext?
    ensures ReadRequest(RequestBytes(r) + rest) == Some((r, rest))
  {
    var body := U32Bytes(r.blockNumber) + rest;
    assert RequestBytes(r) + rest == [0xC0, 0x02] + ([r.invokeId] + body);
    ReadRequestChoice(0x02, [r.invokeId] + body);
    TakeByteOf(r.invokeId, body);
    TakeU32Of(r.blockNumber, rest);
  }

  lemma {:induction false} ListRequestRoundTrip(r: GetRequest, rest: seq<byte>)
    requires r.RequestWithList? && RequestWellFormed(r)
    ensures ReadRequest(RequestBytes(r) + rest) == Some((r, rest))
  {
    var ds := r.descriptors;
    var list := EncodeMany(DescriptorBytes, ds) + rest;
    assert RequestBytes(r) + rest == [0xC0, 0x03] + ([r.invokeId] + ([|ds|] + list));
    ReadRequestChoice(0x03, [r.invokeId] + ([|ds|] + list));
    TakeByteOf(r.invokeId, [|ds|] + list);
    TakeByteOf(|ds|, list);
    forall x, t | x in ds
      ensures ParseDescriptor(DescriptorBytes(x) + t) == Some((x, t))
    {
      DescriptorRoundTrip(x, t);
    }
    ParseManyEncoded(ParseDescriptor, DescriptorBytes, ds, rest);
  }

  /**
   * The count is written as `len() as u8`: a list of 256 descriptors is announced as an
   * empty one, so parsing stops right after the count.
   */
  lemma {:induction false} ListCountWraps(id: byte, ds: seq<AttributeDescriptor>)
    requires |ds| == 256
    ensures ReadRequest(RequestBytes(RequestWithList(id, ds))) == Some((RequestWithList(id, []), EncodeMany(DescriptorBytes, ds)))
  {
    var list := EncodeMany(DescriptorBytes, ds);
    assert RequestBytes(RequestWithList(id, ds)) == [0xC0, 0x03] + ([id] + ([0] + list));
    ReadRequestChoice(0x03, [id] + ([0] + list));
    TakeByteOf(id, [0] + list);
    TakeByteOf(0, list);
  }

  /** A first octet other than 0xC0, or a choice other than 1-3, is a parse error. */
  lemma RequestBadTagOrChoice(input: seq<byte>)
    requires |input| >= 2 && (input[0] != 0xC0 || input[1] !in {0x01, 0x02, 0x03})
    ensures ReadRequest(input) == None
  {
    assert input[1..][0] == input[1];
  }

  /** The Green Book example: Register 1-0:1.8.0*255, attribute 2, invoke id 0, no selector. */
  lemma GreenBookRequestExample()
    ensures RequestBytes(RequestNormal(0, AttributeDescriptor(3, Obis.ObisCode(1, 0, 1, 8, 0, 255), 2), None))
      == [0xC0, 0x01, 0x00, 0x00, 0x03, 0x01, 0x00, 0x01, 0x08, 0x00, 0xFF, 0x02, 0x00]
  {
    assert U16Bytes(3) == [0x00, 0x03];
  }

  // ---------------------------------------------------------------------------
  // GET-Response
  // ---------------------------------------------------------------------------

  /** Choice 0x00: the attribute's value; choice 0x01: why it could not be read. */
  datatype GetDataResult = Data(data: AxdrData.Data) | DataAccessError(error: DataAccessResult)

  /** The raw octets of one block, or an error. */
  datatype GetDataBlockResult = RawData(raw: seq<byte>) | BlockAccessError(blockError: DataAccessResult)

  datatype GetResponse =
    | ResponseNormal(invokeId: byte, result: GetDataResult)
    | ResponseWithDataBlock(invokeId: byte, lastBlock: bool, blockNumber: u32, blockResult: GetDataBlockResult)
    | ResponseWithList(invokeId: byte, results: seq<GetDataResult>)

  function ResultBytes(g: GetDataResult): (s: seq<byte>)
    ensures |s| >= 2 && (s[0] == 0x00 <==> g.Data?)
  {
    match g
    case Data(d) => [0x00] + AxdrData.Encoding(d)
    case DataAccessError(e) => [0x01, e]
  }

  /** Choice 0x00 is a Data value; any other choice is followed by an error code that must be declared. */
  function ParseResult(s: seq<byte>): Option<(GetDataResult, seq<byte>)> {
    match TakeByte(s)
    case None => None
    case Some((choice, s1)) =>
      if choice == 0x00 then
        match AxdrData.Parse(s1)
        case None => None
        case Some((d, s2)) => Some((Data(d), s2))
      else
        match TakeByte(s1)
        case None => None
        case Some((code, s2)) =>
          match AccessResultFromByte(code)
          case None => None
          case Some(e) => Some((DataAccessError(e), s2))
  }

  predicate ResultWellFormed(g: GetDataResult) {
    g.Data? ==> AxdrData.WellFormed(g.data)
  }

  lemma {:induction false} ResultRoundTrip(g: GetDataResult, rest: seq<byte>)
    requires ResultWellFormed(g)
    ensures ParseResult(ResultBytes(g) + rest) == Some((g, rest))
  {
    match g
    case Data(d) =>
      assert ResultBytes(g) + rest == [0x00] + (AxdrData.Encoding(d) + rest);
      TakeByteOf(0x00, AxdrData.Encoding(d) + rest);
      AxdrData.ParseEncoding(d, rest);
    case DataAccessError(e) =>
      assert ResultBytes(g) + rest == [0x01] + ([e] + rest);
      TakeByteOf(0x01, [e] + rest);
      TakeByteOf(e, rest);
      AccessResultRoundTrip(e);
  }

  function BlockResultBytes(b: GetDataBlockResult): seq<byte> {
    match b
    case RawData(raw) => [0x00] + raw
    case BlockAccessError(e) => [0x01, e]
  }

  /**
   * Choice 0x00 takes the whole rest of the input as the block, and leaves that same
   * input as the remainder: the raw octets are not consumed.
   */
  function ParseBlockResult(s: seq<byte>): Option<(GetDataBlockResult, seq<byte>)> {
    match TakeByte(s)
    case None => None
    case Some((choice, s1)) =>
      if choice == 0x00 then Some((RawData(s1), s1))
      else
        match TakeByte(s1)
        case None => None
        case Some((code, s2)) =>
          match AccessResultFromByte(code)
          case None => None
          case Some(e) => Some((BlockAccessError(e), s2))
  }

  /** What `encode` writes: tag 0xC4, the choice (1, 2 or 3), then the choice's fields. */
  function ResponseBytes(r: GetResponse): (s: seq<byte>)
    ensures |s| >= 3 && s[0] == 0xC4 && s[2] == r.invokeId
  {
    match r
    case ResponseNormal(id, g) => [0xC4, 0x01, id] + ResultBytes(g)
    case ResponseWithDataBlock(id, last, n, b) =>
      [0xC4, 0x02, id, if last then 0x01 else 0x00] + U32Bytes(n) + BlockResultBytes(b)
    case ResponseWithList(id, gs) => [0xC4, 0x03, id, |gs| % 256] + EncodeMany(ResultBytes, gs)
  }

  /** `GetResponse::encode`, with its loop over the result list. */
  method EncodeResponse(r: GetResponse) returns (buf: seq<byte>)
    ensures buf == ResponseBytes(r)
  {
    buf := [0xC4];
    match r
    case ResponseNormal(id, g) =>
      buf := buf + [0x01, id] + ResultBytes(g);
    case ResponseWithDataBlock(id, last, n, b) =>
      buf := buf + [0x02, id, if last then 0x01 else 0x00];
      buf := buf + U32Bytes(n);
      buf := buf + BlockResultBytes(b);
    case ResponseWithList(id, gs) =>
      buf := buf + [0x03, id, |gs| % 256];
      buf := AppendMany(buf, ResultBytes, gs);
  }

  /** `GetResponse::parse`: the tag must be 0xC4 and the choice 1, 2 or 3. */
  function ReadResponse(input: seq<byte>): Option<(GetResponse, seq<byte>)> {
    match TakeByte(input)
    case None => None
    case Some((tag, s1)) =>
      if tag != 0xC4 then None
      else
        match TakeByte(s1)
        case None => None
        case Some((choice, s2)) =>
          if choice == 0x01 then ReadNormalResponse(s2)
          else if choice == 0x02 then ReadBlockResponse(s2)
          else if choice == 0x03 then ReadListResponse(s2)
          else None
  }

  function ReadNormalResponse(s: seq<byte>): Option<(GetResponse, seq<byte>)> {
    match TakeByte(s)
    case None => None
    case Some((id, s1)) =>
      match ParseResult(s1)
      case None => None
      case Some((g, s2)) => Some((ResponseNormal(id, g), s2))
  }

  /** Any last-block octet other than 0x00 means "last". */
  function ReadBlockResponse(s: seq<byte>): Option<(GetResponse, seq<byte>)> {
    match TakeByte(s)
    case None => None
    case Some((id, s1)) =>
      match TakeByte(s1)
      case None => None
      case Some((last, s2)) =>
        match TakeU32(s2)
        case None => None
        case Some((n, s3)) =>
          match ParseBlockResult(s3)
          case None => None
          case Some((b, s4)) => Some((ResponseWithDataBlock(id, last != 0x00, n, b), s4))
  }

  function ReadListResponse(s: seq<byte>): Option<(GetResponse, seq<byte>)> {
    match TakeByte(s)
    case None => None
    case Some((id, s1)) =>
      match TakeByte(s1)
      case None => None
      case Some((count, s2)) =>
        match ParseMany(ParseResult, s2, count)
        case None => None
        case Some((gs, s3)) => Some((ResponseWithList(id, gs), s3))
  }

  /** `GetResponse::parse`, with the result loop of the list choice. */
  method ParseResponse(input: seq<byte>) returns (r: Option<(GetResponse, seq<byte>)>)
    ensures r == ReadResponse(input)
  {
    if |input| < 2 || input[0] != 0xC4 || input[1] != 0x03 {
      return ReadResponse(input);
    }
    if |input| < 4 {
      return None;
    }
    var id := input[2];
    var count := input[3];
    var list := ParseManyLoop(ParseResult, input[4..], count);
    assert input[1..][1..][1..][1..] == input[4..];
    match list
    case None => r := None;
    case Some((gs, rest)) => r := Some((ResponseWithList(id, gs), rest));
  }

  /** What the encoding can carry back unchanged (a raw data block is not among them: see RawBlockKeepsInput). */
  predicate ResponseWellFormed(r: GetResponse) {
    match r
    case ResponseNormal(_, g) => ResultWellFormed(g)
    case ResponseWithDataBlock(_, _, _, b) => b.BlockAccessError?
    case ResponseWithList(_, gs) => |gs| <= 255 && forall g :: g in gs ==> ResultWellFormed(g)
  }

  lemma {:induction false} ResponseRoundTrip(r: GetResponse, rest: seq<byte>)
    requires ResponseWellFormed(r)
    ensures ReadResponse(ResponseBytes(r) + rest) == Some((r, rest))
  {
    match r
    case ResponseNormal(_, _) => NormalResponseRoundTrip(r, rest);
    case ResponseWithDataBlock(_, _, _, _) => BlockResponseRoundTrip(r, rest);
    case ResponseWithList(_, _) => ListResponseRoundTrip(r, rest);
  }

  lemma ReadResponseChoice(choice: byte, body: seq<byte>)
    ensures ReadResponse([0xC4, choice] + body)
      == if choice == 0x01 then ReadNormalResponse(body)
         else if choice == 0x02 then ReadBlockResponse(body)
         else if choice == 0x03 then ReadListResponse(body)
         else None
  {
    TakeByteOf(0xC4, [choice] + body);
    TakeByteOf(choice, body);
    assert [0xC4, choice] + body == [0xC4] + ([choice] + body);
  }

  lemma {:induction false} NormalResponseRoundTrip(r: GetResponse, rest: seq<byte>)
    requires r.ResponseNormal? && ResponseWellFormed(r)
    ensures ReadResponse(ResponseBytes(r) + rest) == Some((r, rest))
  {
    var body := ResultBytes(r.result) + rest;
    assert ResponseBytes(r) + rest == [0xC4, 0x01] + ([r.invokeId] + body);
    ReadResponseChoice(0x01, [r.invokeId] + body);
    TakeByteOf(r.invokeId, body);
    ResultRoundTrip(r.result, rest);
  }

  /** The fields of a block response up to its result. */
  lemma {:induction false} BlockHeader(id: byte, last: bool, n: u32, tail: seq<byte>)
    ensures ReadBlockResponse([id, if last then 0x01 else 0x00] + U32Bytes(n) + tail)
      == match ParseBlockResult(tail)
         case None => None
         case Some((b, s)) => Some((ResponseWithDataBlock(id, last, n, b), s))
  {
    var lastByte: byte := if last then 0x01 else 0x00;
    var body := U32Bytes(n) + tail;
    assert [id, lastByte] + U32Bytes(n) + tail == [id] + ([lastByte] + body);
    TakeByteOf(id, [lastByte] + body);
    TakeByteOf(lastByte, body);
    TakeU32Of(n, tail);
  }

  lemma BlockResponseBytes(id: byte, last: bool, n: u32, b: GetDataBlockResult)
    ensures ResponseBytes(ResponseWithDataBlock(id, last, n, b))
      == [0xC4, 0x02] + ([id, if last then 0x01 else 0x00] + U32Bytes(n) + BlockResultBytes(b))
  {
  }

  lemma {:induction false} BlockResponseRoundTrip(r: GetResponse, rest: seq<byte>)
    requires r.ResponseWithDataBlock? && ResponseWellFormed(r)
    ensures ReadResponse(ResponseBytes(r) + rest) == Some((r, rest))
  {
    var e := r.blockResult.blockError;
    var lastByte: byte := if r.lastBlock then 0x01 else 0x00;
    var tail := [0x01] + ([e] + rest);
    var body := [r.invokeId, lastByte] + U32Bytes(r.blockNumber) + tail;
    BlockResponseBytes(r.invokeId, r.lastBlock, r.blockNumber, r.blockResult);
    assert ResponseBytes(r) + rest == [0xC4, 0x02] + body;
    ReadResponseChoice(0x02, body);
    BlockHeader(r.invokeId, r.lastBlock, r.blockNumber, tail);
    TakeByteOf(0x01, [e] + rest);
    TakeByteOf(e, rest);
    AccessResultRoundTrip(e);
  }

  lemma {:induction false} ListResponseRoundTrip(r: GetResponse, rest: seq<byte>)
    requires r.ResponseWithList? && ResponseWellFormed(r)
    ensures ReadResponse(ResponseBytes(r) + rest) == Some((r, rest))
  {
    var gs := r.results;
    var list := EncodeMany(ResultBytes, gs) + rest;
    assert ResponseBytes(r) + rest == [0xC4, 0x03] + ([r.invokeId] + ([|gs|] + list));
    ReadResponseChoice(0x03, [r.invokeId] + ([|gs|] + list));
    TakeByteOf(r.invokeId, [|gs|] + list);
    TakeByteOf(|gs|, list);
    forall x, t | x in gs
      ensures ParseResult(ResultBytes(x) + t) == Some((x, t))
    {
      ResultRoundTrip(x, t);
    }
    ParseManyEncoded(ParseResult, ResultBytes, gs, rest);
  }

  /**
   * A raw data block is read as everything after the choice octet, trailing bytes
   * included, and that same input is returned as the remainder.
   */
  lemma {:induction false} RawBlockKeepsInput(id: byte, last: bool, n: u32, raw: seq<byte>, rest: seq<byte>)
    ensures ReadResponse(ResponseBytes(ResponseWithDataBlock(id, last, n, RawData(raw))) + rest)
      == Some((ResponseWithDataBlock(id, last, n, RawData(raw + rest)), raw + rest))
  {
    var lastByte: byte := if last then 0x01 else 0x00;
    var tail := [0x00] + (raw + rest);
    var body := [id, lastByte] + U32Bytes(n) + tail;
    BlockResponseBytes(id, last, n, RawData(raw));
    assert ResponseBytes(ResponseWithDataBlock(id, last, n, RawData(raw))) + rest == [0xC4, 0x02] + body;
    ReadResponseChoice(0x02, body);
    BlockHeader(id, last, n, tail);
    RawBlockResult(raw + rest);
  }

  lemma RawBlockResult(s: seq<byte>)
    ensures ParseBlockResult([0x00] + s) == Some((RawData(s), s))
  {
    TakeByteOf(0x00, s);
  }

  /** An error code that is not a declared Data-Access-Result makes the response fail to parse. */
  lemma BadErrorCode(id: byte, code: byte, rest: seq<byte>)
    requires !IsAccessResultCode(code)
    ensures ReadResponse([0xC4, 0x01, id, 0x01, code] + rest) == None
  {
    AccessResultFromByteExact(code);
    var s := [0xC4, 0x01, id, 0x01, code] + rest;
    assert s[1..][1..][1..][1..] == [code] + rest;
    TakeByteOf(code, rest);
  }

  lemma ResponseBadTagOrChoice(input: seq<byte>)
    requires |input| >= 2 && (input[0] != 0xC4 || input[1] !in {0x01, 0x02, 0x03})
    ensures ReadResponse(input) == None
  {
    assert input[1..][0] == input[1];
  }
}
