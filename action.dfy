/**
 * src/action.rs: the ACTION service APDUs, ACTION-Request (tag 0xC3) and ACTION-Response
 * (tag 0xC7), with their method descriptors, parameter blocks and method results.
 */
module ActionService {
  import opened Bytes
  import opened Wire
  import AxdrData
  import Obis

  // ---------------------------------------------------------------------------
  // Building blocks
  // ---------------------------------------------------------------------------

  /** A method: interface class, logical name, method index, and optional invocation parameters. */
  datatype MethodDescriptor = MethodDescriptor(classId: u16, instanceId: Obis.ObisCode, methodId: i8,
                                               parameters: Option<AxdrData.Data>)

  /** One block of a parameter transfer. */
  datatype DataBlockSa = DataBlockSa(lastBlock: bool, blockNumber: u32, rawData: seq<byte>)

  /** `push_u16(class_id)`, the logical name, `method_id as u8`. */
  function AddressBytes(classId: u16, instanceId: Obis.ObisCode, methodId: i8): (s: seq<byte>)
    ensures |s| == 9
  {
    U16Bytes(classId) + Obis.Encode(instanceId) + [ToTwos(methodId, 1)]
  }

  /** `be_u16`, `ObisCode::parse`, then one octet read back `as i8`. */
  function ParseAddress(s: seq<byte>): (r: Option<((u16, Obis.ObisCode, i8), seq<byte>)>)
    ensures r.Some? <==> |s| >= 9
    ensures r.Some? ==> r.value.1 == s[9..]
  {
    match TakeU16(s)
    case None => None
    case Some((classId, s1)) =>
      match Obis.Parse(s1)
      case None => None
      case Some((instanceId, s2)) =>
        match TakeByte(s2)
        case None => None
        case Some((m, s3)) => Some(((classId, instanceId, FromTwos(m, 1)), s3))
  }

  lemma {:induction false} AddressRoundTrip(classId: u16, instanceId: Obis.ObisCode, methodId: i8, rest: seq<byte>)
    ensures ParseAddress(AddressBytes(classId, instanceId, methodId) + rest) == Some(((classId, instanceId, methodId), rest))
  {
    var tail := Obis.Encode(instanceId) + ([ToTwos(methodId, 1)] + rest);
    assert AddressBytes(classId, instanceId, methodId) + rest == U16Bytes(classId) + tail;
    TakeU16Of(classId, tail);
    Obis.ParseEncode(instanceId, [ToTwos(methodId, 1)] + rest);
    TakeByteOf(ToTwos(methodId, 1), rest);
    TwosRoundTrip(methodId, 1);
  }

  /** 0x00 when there are no parameters; 0x01 and the encoded Data value when there are. */
  function ParamBytes(p: Option<AxdrData.Data>): (s: seq<byte>)
    ensures |s| >= 1 && (s[0] == 0x01 <==> p.Some?) && (p.None? ==> s == [0x00])
  {
    match p
    case None => [0x00]
    case Some(d) => [0x01] + AxdrData.Encoding(d)
  }

  /** Any nonzero flag octet announces parameters. */
  function ParseParams(s: seq<byte>): Option<(Option<AxdrData.Data>, seq<byte>)> {
    match TakeByte(s)
    case None => None
    case Some((flag, s1)) =>
      if flag != 0x00 then
        match AxdrData.Parse(s1)
        case None => None
        case Some((d, s2)) => Some((Some(d), s2))
      else Some((None, s1))
  }

  predicate ParamsWellFormed(p: Option<AxdrData.Data>) {
    p.Some? ==> AxdrData.WellFormed(p.value)
  }

  lemma {:induction false} ParamsRoundTrip(p: Option<AxdrData.Data>, rest: seq<byte>)
    requires ParamsWellFormed(p)
    ensures ParseParams(ParamBytes(p) + rest) == Some((p, rest))
  {
    match p
    case None =>
      TakeByteOf(0x00, rest);
    case Some(d) =>
      assert ParamBytes(p) + rest == [0x01] + (AxdrData.Encoding(d) + rest);
      TakeByteOf(0x01, AxdrData.Encoding(d) + rest);
      AxdrData.ParseEncoding(d, rest);
  }

  /** The flag is read as a boolean: 0x02 announces parameters just as 0x01 does. */
  lemma ParamsFlagLenient(flag: byte, d: AxdrData.Data, rest: seq<byte>)
    requires flag != 0x00 && AxdrData.WellFormed(d)
    ensures ParseParams([flag] + (AxdrData.Encoding(d) + rest)) == Some((Some(d), rest))
  {
    TakeByteOf(flag, AxdrData.Encoding(d) + rest);
    AxdrData.ParseEncoding(d, rest);
  }

  function MethodDescriptorBytes(m: MethodDescriptor): (s: seq<byte>)
    ensures |s| >= 10
  {
    AddressBytes(m.classId, m.instanceId, m.methodId) + ParamBytes(m.parameters)
  }

  function ParseMethodDescriptor(s: seq<byte>): Option<(MethodDescriptor, seq<byte>)> {
    match ParseAddress(s)
    case None => None
    case Some(((classId, instanceId, methodId), s1)) =>
      match ParseParams(s1)
      case None => None
      case Some((p, s2)) => Some((MethodDescriptor(classId, instanceId, methodId, p), s2))
  }

  lemma {:induction false} MethodDescriptorRoundTrip(m: MethodDescriptor, rest: seq<byte>)
    requires ParamsWellFormed(m.parameters)
    ensures ParseMethodDescriptor(MethodDescriptorBytes(m) + rest) == Some((m, rest))
  {
    var tail := ParamBytes(m.parameters) + rest;
    Regroup(AddressBytes(m.classId, m.instanceId, m.methodId), ParamBytes(m.parameters), rest);
    AddressRoundTrip(m.classId, m.instanceId, m.methodId, tail);
    ParamsRoundTrip(m.parameters, rest);
  }

  function Flag(b: bool): byte {
    if b then 0x01 else 0x00
  }

  /** `last_block as u8`, `push_u32(block_number)`, then the raw octets with no length. */
  function PBlockBytes(b: DataBlockSa): (s: seq<byte>)
    ensures |s| == 5 + |b.rawData| && s[5..] == b.rawData
  {
    [Flag(b.lastBlock)] + U32Bytes(b.blockNumber) + b.rawData
  }

  /** The block's raw data is everything left in the input, and nothing remains after it. */
  function ReadPBlock(s: seq<byte>): (r: Option<(DataBlockSa, seq<byte>)>)
    ensures r.Some? <==> |s| >= 5
    ensures r.Some? ==> r.value.1 == [] && r.value.0.rawData == s[5..]
  {
    match TakeByte(s)
    case None => None
    case Some((last, s1)) =>
      match TakeU32(s1)
      case None => None
      case Some((n, s2)) => Some((DataBlockSa(last != 0x00, n, s2), []))
  }

  /** Reading a block back gives it with whatever followed it appended to its raw data. */
  lemma {:induction false} PBlockRoundTrip(b: DataBlockSa, rest: seq<byte>)
    ensures ReadPBlock(PBlockBytes(b) + rest) == Some((b.(rawData := b.rawData + rest), []))
  {
    var tail := b.rawData + rest;
    assert PBlockBytes(b) + rest == [Flag(b.lastBlock)] + (U32Bytes(b.blockNumber) + tail);
    TakeByteOf(Flag(b.lastBlock), U32Bytes(b.blockNumber) + tail);
    TakeU32Of(b.blockNumber, tail);
  }

  // ---------------------------------------------------------------------------
  // Method results
  // ---------------------------------------------------------------------------

  /** What a method returned: choice 0x00 with a Data value, or choice 0x01 with any error octet. */
  datatype GetDataResult = Data(data: AxdrData.Data) | DataAccessError(code: byte)

  function GetDataResultBytes(g: GetDataResult): (s: seq<byte>)
    ensures |s| >= 2
  {
    match g
    case Data(d) => [0x00] + AxdrData.Encoding(d)
    case DataAccessError(code) => [0x01, code]
  }

  function ParseGetDataResult(s: seq<byte>): Option<(GetDataResult, seq<byte>)> {
    match TakeByte(s)
    case None => None
    case Some((choice, s1)) =>
      if choice == 0x00 then
        match AxdrData.Parse(s1)
        case None => None
        case Some((d, s2)) => Some((Data(d), s2))
      else if choice == 0x01 then
        match TakeByte(s1)
        case None => None
        case Some((code, s2)) => Some((DataAccessError(code), s2))
      else None
  }

  predicate GetDataResultWellFormed(g: GetDataResult) {
    g.Data? ==> AxdrData.WellFormed(g.data)
  }

  lemma {:induction false} GetDataResultRoundTrip(g: GetDataResult, rest: seq<byte>)
    requires GetDataResultWellFormed(g)
    ensures ParseGetDataResult(GetDataResultBytes(g) + rest) == Some((g, rest))
  {
    match g
    case Data(d) =>
      assert GetDataResultBytes(g) + rest == [0x00] + (AxdrData.Encoding(d) + rest);
      TakeByteOf(0x00, AxdrData.Encoding(d) + rest);
      AxdrData.ParseEncoding(d, rest);
    case DataAccessError(code) =>
      assert GetDataResultBytes(g) + rest == [0x01] + ([code] + rest);
      TakeByteOf(0x01, [code] + rest);
      TakeByteOf(code, rest);
  }

  datatype ActionResult =
    | Success(returned: Option<GetDataResult>)
    | HardwareFault
    | TemporaryFailure
    | ReadWriteDenied
    | ObjectUndefined
    | ObjectClassInconsistent
    | ObjectUnavailable
    | TypeUnmatched
    | ScopeOfAccessViolated
    | DataBlockUnavailable
    | LongActionAborted
    | NoLongActionInProgress
    | OtherReason

  /** The codes `from_error_code` recognises besides 0. */
  predicate IsKnownErrorCode(c: byte) {
    1 <= c <= 4 || c == 9 || 11 <= c <= 16
  }

  /** `to_error_code`. */
  function ErrorCode(r: ActionResult): byte {
    match r
    case Success(_) => 0
    case HardwareFault => 1
    case TemporaryFailure => 2
    case ReadWriteDenied => 3
    case ObjectUndefined => 4
    case ObjectClassInconsistent => 9
    case ObjectUnavailable => 11
    case TypeUnmatched => 12
    case ScopeOfAccessViolated => 13
    case DataBlockUnavailable => 14
    case LongActionAborted => 15
    case NoLongActionInProgress => 16
    case OtherReason => 250
  }

  /** `from_error_code`: 0 is success without data, unknown codes are OtherReason. */
  function FromErrorCode(c: byte): ActionResult {
    match c
    case 0 => Success(None)
    case 1 => HardwareFault
    case 2 => TemporaryFailure
    case 3 => ReadWriteDenied
    case 4 => ObjectUndefined
    case 9 => ObjectClassInconsistent
    case 11 => ObjectUnavailable
    case 12 => TypeUnmatched
    case 13 => ScopeOfAccessViolated
    case 14 => DataBlockUnavailable
    case 15 => LongActionAborted
    case 16 => NoLongActionInProgress
    case _ => OtherReason
  }

  /** Every error result survives its code. */
  lemma ErrorCodeRoundTrip(r: ActionResult)
    requires !r.Success?
    ensures FromErrorCode(ErrorCode(r)) == r
    ensures IsKnownErrorCode(ErrorCode(r)) || ErrorCode(r) == 250
  {
  }

  /** A code reads back as itself exactly when it is 0 or known; every other code reads as OtherReason. */
  lemma FromErrorCodeExact(c: byte)
    ensures (c == 0 || IsKnownErrorCode(c)) ==> ErrorCode(FromErrorCode(c)) == c
    ensures FromErrorCode(c) == OtherReason <==> !(c == 0 || IsKnownErrorCode(c))
  {
  }

  /** `ActionResult::encode`: 00 00 or 00 01 + result on success, 01 + code otherwise. */
  function ActionResultBytes(r: ActionResult): (s: seq<byte>)
    ensures |s| >= 2 && (s[0] == 0x00 <==> r.Success?)
  {
    match r
    case Success(None) => [0x00, 0x00]
    case Success(Some(g)) => [0x00, 0x01] + GetDataResultBytes(g)
    case _ => [0x01, ErrorCode(r)]
  }

  /** `ActionResult::parse`: choice 0x00 then a data flag (any nonzero octet), or 0x01 then a code. */
  function ParseActionResult(s: seq<byte>): Option<(ActionResult, seq<byte>)> {
    match TakeByte(s)
    case None => None
    case Some((choice, s1)) =>
      match TakeByte(s1)
      case None => None
      case Some((b, s2)) =>
        if choice == 0x00 then
          if b != 0x00 then
            match ParseGetDataResult(s2)
            case None => None
            case Some((g, s3)) => Some((Success(Some(g)), s3))
          else Some((Success(None), s2))
        else if choice == 0x01 then Some((FromErrorCode(b), s2))
        else None
  }

  predicate ActionResultWellFormed(r: ActionResult) {
    r.Success? && r.returned.Some? ==> GetDataResultWellFormed(r.returned.value)
  }

  lemma {:induction false} ActionResultRoundTrip(r: ActionResult, rest: seq<byte>)
    requires ActionResultWellFormed(r)
    ensures ParseActionResult(ActionResultBytes(r) + rest) == Some((r, rest))
  {
    if r.Success? && r.returned.Some? {
      var g := r.returned.value;
      assert ActionResultBytes(r) + rest == [0x00] + ([0x01] + (GetDataResultBytes(g) + rest));
      TakeByteOf(0x00, [0x01] + (GetDataResultBytes(g) + rest));
      TakeByteOf(0x01, GetDataResultBytes(g) + rest);
      GetDataResultRoundTrip(g, rest);
    } else {
      var (c, b) := if r.Success? then (0x00, 0x00) else (0x01, ErrorCode(r));
      assert ActionResultBytes(r) + rest == [c] + ([b] + rest);
      TakeByteOf(c, [b] + rest);
      TakeByteOf(b, rest);
      if !r.Success? {
        ErrorCodeRoundTrip(r);
      }
    }
  }

  /** An error choice carrying code 0 reads as success without data. */
  lemma ErrorChoiceZero(rest: seq<byte>)
    ensures ParseActionResult([0x01, 0x00] + rest) == Some((Success(None), rest))
  {
    assert [0x01, 0x00] + rest == [0x01] + ([0x00] + rest);
    TakeByteOf(0x01, [0x00] + rest);
    TakeByteOf(0x00, rest);
  }

  // ---------------------------------------------------------------------------
  // ACTION-Request
  // ---------------------------------------------------------------------------

  datatype ActionRequest =
    | RequestNormal(invokeId: byte, target: MethodDescriptor)
    | RequestNextPBlock(invokeId: byte, blockNumber: u32)
    | RequestWithList(invokeId: byte, methods: seq<MethodDescriptor>)
    | RequestWithFirstPBlock(invokeId: byte, classId: u16, instanceId: Obis.ObisCode, methodId: i8, pblock: DataBlockSa)
    | RequestWithListAndFirstPBlock(invokeId: byte, methods: seq<MethodDescriptor>, pblock: DataBlockSa)

  /** What `encode` writes: tag 0xC3, the choice (1 to 5), the invoke id, then the choice's fields. */
  function RequestBytes(r: ActionRequest): (s: seq<byte>)
    ensures |s| >= 3 && s[0] == 0xC3
  {
    match r
    case RequestNormal(id, m) => [0xC3, 0x01, id] + MethodDescriptorBytes(m)
    case RequestNextPBlock(id, n) => [0xC3, 0x02, id] + U32Bytes(n)
    case RequestWithList(id, ms) => [0xC3, 0x03, id, |ms| % 256] + EncodeMany(MethodDescriptorBytes, ms)
    case RequestWithFirstPBlock(id, c, o, m, b) => [0xC3, 0x04, id] + AddressBytes(c, o, m) + PBlockBytes(b)
    case RequestWithListAndFirstPBlock(id, ms, b) =>
      [0xC3, 0x05, id, |ms| % 256] + EncodeMany(MethodDescriptorBytes, ms) + PBlockBytes(b)
  }

  /** The library's own example: method 1 of the clock 0.0.1.0.0.255 without parameters, 13 octets. */
  lemma NormalRequestExample()
    ensures RequestBytes(RequestNormal(1, MethodDescriptor(8, Obis.ObisCode(0, 0, 1, 0, 0, 255), 1, None)))
      == [0xC3, 0x01, 0x01, 0x00, 0x08, 0x00, 0x00, 0x01, 0x00, 0x00, 0xFF, 0x01, 0x00]
  {
    assert U16Bytes(8) == [0x00, 0x08];
  }

  /** `ActionRequest::encode`, with its loops over the method descriptors. */
  method EncodeRequest(r: ActionRequest) returns (buf: seq<byte>)
    ensures buf == RequestBytes(r)
  {
    match r
    case RequestNormal(id, m) =>
      buf := [0xC3, 0x01, id] + MethodDescriptorBytes(m);
    case RequestNextPBlock(id, n) =>
      buf := [0xC3, 0x02, id] + U32Bytes(n);
    case RequestWithList(id, ms) =>
      buf := AppendMany([0xC3, 0x03, id, |ms| % 256], MethodDescriptorBytes, ms);
    case RequestWithFirstPBlock(id, c, o, m, b) =>
      buf := [0xC3, 0x04, id] + AddressBytes(c, o, m);
      buf := buf + PBlockBytes(b);
    case RequestWithListAndFirstPBlock(id, ms, b) =>
      buf := AppendMany([0xC3, 0x05, id, |ms| % 256], MethodDescriptorBytes, ms);
      buf := buf + PBlockBytes(b);
  }

  /** `ActionRequest::parse`: the tag must be 0xC3 and the choice 1 to 5. */
  function ReadRequest(input: seq<byte>): Option<(ActionRequest, seq<byte>)> {
    match TakeByte(input)
    case None => None
    case Some((tag, s1)) =>
      if tag != 0xC3 then None
      else
        match TakeByte(s1)
        case None => None
        case Some((choice, s2)) =>
          if choice == 0x01 then ReadNormalRequest(s2)
          else if choice == 0x02 then ReadNextPBlockRequest(s2)
          else if choice == 0x03 then ReadListRequest(s2)
          else if choice == 0x04 then ReadFirstPBlockRequest(s2)
          else if choice == 0x05 then ReadListPBlockRequest(s2)
          else None
  }

  function ReadNormalRequest(s: seq<byte>): Option<(ActionRequest, seq<byte>)> {
    match TakeByte(s)
    case None => None
    case Some((id, s1)) =>
      match ParseMethodDescriptor(s1)
      case None => None
      case Some((m, s2)) => Some((RequestNormal(id, m), s2))
  }

  function ReadNextPBlockRequest(s: seq<byte>): Option<(ActionRequest, seq<byte>)> {
    match TakeByte(s)
    case None => None
    case Some((id, s1)) =>
      match TakeU32(s1)
      case None => None
      case Some((n, s2)) => Some((RequestNextPBlock(id, n), s2))
  }

  /** The invoke id, the count, and `count` method descriptors. */
  function ReadMethods(s: seq<byte>): Option<((byte, seq<MethodDescriptor>), seq<byte>)> {
    match TakeByte(s)
    case None => None
    case Some((id, s1)) =>
      match TakeByte(s1)
      case None => None
      case Some((count, s2)) =>
        match ParseMany(ParseMethodDescriptor, s2, count)
        case None => None
        case Some((ms, s3)) => Some(((id, ms), s3))
  }

  function ReadListRequest(s: seq<byte>): Option<(ActionRequest, seq<byte>)> {
    match ReadMethods(s)
    case None => None
    case Some(((id, ms), s1)) => Some((RequestWithList(id, ms), s1))
  }

  function ReadFirstPBlockRequest(s: seq<byte>): Option<(ActionRequest, seq<byte>)> {
    match TakeByte(s)
    case None => None
    case Some((id, s1)) =>
      match ParseAddress(s1)
      case None => None
      case Some(((c, o, m), s2)) =>
        match ReadPBlock(s2)
        case None => None
        case Some((b, s3)) => Some((RequestWithFirstPBlock(id, c, o, m, b), s3))
  }

  function ReadListPBlockRequest(s: seq<byte>): Option<(ActionRequest, seq<byte>)> {
    match ReadMethods(s)
    case None => None
    case Some(((id, ms), s1)) =>
      match ReadPBlock(s1)
      case None => None
      case Some((b, s2)) => Some((RequestWithListAndFirstPBlock(id, ms, b), s2))
  }

  /** The descriptor loop shared by choices 3 and 5. */
  method ReadMethodsLoop(s: seq<byte>) returns (r: Option<((byte, seq<MethodDescriptor>), seq<byte>)>)
    ensures r == ReadMethods(s)
  {
    if |s| < 2 {
      return None;
    }
    assert s[1..][1..] == s[2..];
    var ms := ParseManyLoop(ParseMethodDescriptor, s[2..], s[1]);
    if ms.None? {
      return None;
    }
    return Some(((s[0], ms.value.0), ms.value.1));
  }

  /** `ActionRequest::parse`, with the descriptor loops of choices 3 and 5. */
  method ParseRequest(input: seq<byte>) returns (r: Option<(ActionRequest, seq<byte>)>)
    ensures r == ReadRequest(input)
  {
    if |input| < 2 || input[0] != 0xC3 || input[1] !in {0x03, 0x05} {
      return ReadRequest(input);
    }
    var choice := input[1];
    assert input == [0xC3, choice] + input[2..];
    ReadRequestChoice(choice, input[2..]);
    var methods := ReadMethodsLoop(input[2..]);
    if methods.None? {
      return None;
    }
    var ((id, ms), rest) := methods.value;
    if choice == 0x03 {
      return Some((RequestWithList(id, ms), rest));
    }
    var b := ReadPBlock(rest);
    if b.None? {
      return None;
    }
    return Some((RequestWithListAndFirstPBlock(id, ms, b.value.0), b.value.1));
  }

  predicate MethodsWellFormed(ms: seq<MethodDescriptor>) {
    |ms| <= 255 && forall m :: m in ms ==> ParamsWellFormed(m.parameters)
  }

  /** What the encoding can carry: Data values the codec reads back, and counts that fit one octet. */
  predicate RequestWellFormed(r: ActionRequest) {
    match r
    case RequestNormal(_, m) => ParamsWellFormed(m.parameters)
    case RequestNextPBlock(_, _) => true
    case RequestWithList(_, ms) => MethodsWellFormed(ms)
    case RequestWithFirstPBlock(_, _, _, _, _) => true
    case RequestWithListAndFirstPBlock(_, ms, _) => MethodsWellFormed(ms)
  }

  /** The choices whose last field is a raw parameter block. */
  predicate CarriesPBlock(r: ActionRequest) {
    r.RequestWithFirstPBlock? || r.RequestWithListAndFirstPBlock?
  }

  lemma ReadRequestChoice(choice: byte, body: seq<byte>)
    ensures ReadRequest([0xC3, choice] + body)
      == if choice == 0x01 then ReadNormalRequest(body)
         else if choice == 0x02 then ReadNextPBlockRequest(body)
         else if choice == 0x03 then ReadListRequest(body)
         else if choice == 0x04 then ReadFirstPBlockRequest(body)
         else if choice == 0x05 then ReadListPBlockRequest(body)
         else None
  {
    TakeByteOf(0xC3, [choice] + body);
    TakeByteOf(choice, body);
    assert [0xC3, choice] + body == [0xC3] + ([choice] + body);
  }

  /**
   * Parsing what `encode` wrote, followed by anything, gives the request back and stops at
   * the rest, for the choices without a parameter block.
   */
  lemma {:induction false} RequestRoundTrip(r: ActionRequest, rest: seq<byte>)
    requires RequestWellFormed(r) && !CarriesPBlock(r)
    ensures ReadRequest(RequestBytes(r) + rest) == Some((r, rest))
  {
    if r.RequestNormal? {
      NormalRequestRoundTrip(r, rest);
    } else if r.RequestNextPBlock? {
      NextPBlockRequestRoundTrip(r, rest);
    } else {
      ListRequestRoundTrip(r.invokeId, r.methods, rest);
    }
  }

  lemma {:induction false} NormalRequestRoundTrip(r: ActionRequest, rest: seq<byte>)
    requires r.RequestNormal? && RequestWellFormed(r)
    ensures ReadRequest(RequestBytes(r) + rest) == Some((r, rest))
  {
    var (id, m) := (r.invokeId, MethodDescriptorBytes(r.target));
    Regroup([0xC3, 0x01, id], m, rest);
    HeadRegroup(0xC3, 0x01, id, m + rest);
    ReadRequestChoice(0x01, [id] + (m + rest));
    TakeByteOf(id, m + rest);
    MethodDescriptorRoundTrip(r.target, rest);
  }

  lemma {:induction false} NextPBlockRequestRoundTrip(r: ActionRequest, rest: seq<byte>)
    requires r.RequestNextPBlock?
    ensures ReadRequest(RequestBytes(r) + rest) == Some((r, rest))
  {
    var (id, n) := (r.invokeId, U32Bytes(r.blockNumber));
    Regroup([0xC3, 0x02, id], n, rest);
    HeadRegroup(0xC3, 0x02, id, n + rest);
    ReadRequestChoice(0x02, [id] + (n + rest));
    TakeByteOf(id, n + rest);
    TakeU32Of(r.blockNumber, rest);
  }

  lemma {:induction false} ListRequestRoundTrip(id: byte, ms: seq<MethodDescriptor>, rest: seq<byte>)
    requires MethodsWellFormed(ms)
    ensures ReadRequest(RequestBytes(RequestWithList(id, ms)) + rest) == Some((RequestWithList(id, ms), rest))
  {
    var list := EncodeMany(MethodDescriptorBytes, ms);
    assert RequestBytes(RequestWithList(id, ms)) == [0xC3, 0x03, id, |ms|] + list;
    Regroup([0xC3, 0x03, id, |ms|], list, rest);
    ListHead(0xC3, 0x03, id, |ms|, list + rest);
    ReadRequestChoice(0x03, [id, |ms|] + (list + rest));
    MethodsRoundTrip(id, ms, rest);
  }

  lemma PairHead(a: byte, b: byte, body: seq<byte>)
    ensures [a, b] + body == [a] + ([b] + body)
  {
  }

  lemma ListHead(t: byte, c: byte, id: byte, n: byte, body: seq<byte>)
    ensures [t, c, id, n] + body == [t, c] + ([id, n] + body)
  {
  }

  lemma {:induction false} MethodsRoundTrip(id: byte, ms: seq<MethodDescriptor>, rest: seq<byte>)
    requires MethodsWellFormed(ms)
    ensures ReadMethods([id, |ms|] + (EncodeMany(MethodDescriptorBytes, ms) + rest)) == Some(((id, ms), rest))
  {
    var (n, list) := (|ms| as byte, EncodeMany(MethodDescriptorBytes, ms) + rest);
    PairHead(id, n, list);
    TakeByteOf(id, [n] + list);
    TakeByteOf(n, list);
    MethodsEncoded(ms, rest);
  }

  lemma {:induction false} MethodsEncoded(ms: seq<MethodDescriptor>, rest: seq<byte>)
    requires MethodsWellFormed(ms)
    ensures ParseMany(ParseMethodDescriptor, EncodeMany(MethodDescriptorBytes, ms) + rest, |ms|) == Some((ms, rest))
  {
    forall x, t | x in ms
      ensures ParseMethodDescriptor(MethodDescriptorBytes(x) + t) == Some((x, t))
    {
      MethodDescriptorRoundTrip(x, t);
    }
    ParseManyEncoded(ParseMethodDescriptor, MethodDescriptorBytes, ms, rest);
  }

  /**
   * A request ending in a parameter block reads back with everything after the block taken
   * as part of its raw data and nothing left over; with nothing after it, it reads back unchanged.
   */
  lemma {:induction false} PBlockRequestRoundTrip(r: ActionRequest, rest: seq<byte>)
    requires RequestWellFormed(r) && CarriesPBlock(r)
    ensures ReadRequest(RequestBytes(r) + rest) == Some((r.(pblock := r.pblock.(rawData := r.pblock.rawData + rest)), []))
  {
    if r.RequestWithFirstPBlock? {
      FirstPBlockRequestRoundTrip(r.invokeId, r.classId, r.instanceId, r.methodId, r.pblock, rest);
    } else {
      ListPBlockRequestRoundTrip(r.invokeId, r.methods, r.pblock, rest);
    }
  }

  lemma {:induction false} FirstPBlockRequestRoundTrip(id: byte, c: u16, o: Obis.ObisCode, m: i8, b: DataBlockSa, rest: seq<byte>)
    ensures ReadRequest(RequestBytes(RequestWithFirstPBlock(id, c, o, m, b)) + rest)
      == Some((RequestWithFirstPBlock(id, c, o, m, b.(rawData := b.rawData + rest)), []))
  {
    var (h, a, p) := ([0xC3, 0x04, id], AddressBytes(c, o, m), PBlockBytes(b));
    assert RequestBytes(RequestWithFirstPBlock(id, c, o, m, b)) == h + a + p;
    Regroup(h + a, p, rest);
    Regroup(h, a, p + rest);
    HeadRegroup(0xC3, 0x04, id, a + (p + rest));
    ReadRequestChoice(0x04, [id] + (a + (p + rest)));
    TakeByteOf(id, a + (p + rest));
    AddressRoundTrip(c, o, m, p + rest);
    PBlockRoundTrip(b, rest);
  }

  lemma {:induction false} ListPBlockRequestRoundTrip(id: byte, ms: seq<MethodDescriptor>, b: DataBlockSa, rest: seq<byte>)
    requires MethodsWellFormed(ms)
    ensures ReadRequest(RequestBytes(RequestWithListAndFirstPBlock(id, ms, b)) + rest)
      == Some((RequestWithListAndFirstPBlock(id, ms, b.(rawData := b.rawData + rest)), []))
  {
    var (h, list, p) := ([0xC3, 0x05, id, |ms|], EncodeMany(MethodDescriptorBytes, ms), PBlockBytes(b));
    assert RequestBytes(RequestWithListAndFirstPBlock(id, ms, b)) == h + list + p;
    Regroup(h + list, p, rest);
    Regroup(h, list, p + rest);
    ListHead(0xC3, 0x05, id, |ms|, list + (p + rest));
    ReadRequestChoice(0x05, [id, |ms|] + (list + (p + rest)));
    MethodsRoundTrip(id, ms, p + rest);
    PBlockRoundTrip(b, rest);
  }

  lemma RequestBadTagOrChoice(input: seq<byte>)
    requires |input| >= 2 && (input[0] != 0xC3 || input[1] !in {0x01, 0x02, 0x03, 0x04, 0x05})
    ensures ReadRequest(input) == None
  {
    assert input[1..][0] == input[1];
  }

  // ---------------------------------------------------------------------------
  // ACTION-Response
  // ---------------------------------------------------------------------------

  datatype ActionResponse =
    | ResponseNormal(invokeId: byte, result: ActionResult)
    | ResponseWithPBlock(invokeId: byte, pblock: DataBlockSa)
    | ResponseWithList(invokeId: byte, results: seq<ActionResult>)
    | ResponseNextPBlock(invokeId: byte, blockNumber: u32)

  /** What `encode` writes: tag 0xC7, the choice (1 to 4), the invoke id, then the choice's fields. */
  function ResponseBytes(r: ActionResponse): (s: seq<byte>)
    ensures |s| >= 3 && s[0] == 0xC7
  {
    match r
    case ResponseNormal(id, res) => [0xC7, 0x01, id] + ActionResultBytes(res)
    case ResponseWithPBlock(id, b) => [0xC7, 0x02, id] + PBlockBytes(b)
    case ResponseWithList(id, rs) => [0xC7, 0x03, id, |rs| % 256] + EncodeMany(ActionResultBytes, rs)
    case ResponseNextPBlock(id, n) => [0xC7, 0x04, id] + U32Bytes(n)
  }

  /** The library's own example: C7 01 01 00 00 is a successful result without data. */
  lemma NormalResponseExample()
    ensures ResponseBytes(ResponseNormal(1, Success(None))) == [0xC7, 0x01, 0x01, 0x00, 0x00]
  {
  }

  /** `ActionResponse::encode`, with its loop over the results. */
  method EncodeResponse(r: ActionResponse) returns (buf: seq<byte>)
    ensures buf == ResponseBytes(r)
  {
    match r
    case ResponseNormal(id, res) =>
      buf := [0xC7, 0x01, id] + ActionResultBytes(res);
    case ResponseWithPBlock(id, b) =>
      buf := [0xC7, 0x02, id] + PBlockBytes(b);
    case ResponseWithList(id, rs) =>
      buf := AppendMany([0xC7, 0x03, id, |rs| % 256], ActionResultBytes, rs);
    case ResponseNextPBlock(id, n) =>
      buf := [0xC7, 0x04, id] + U32Bytes(n);
  }

  /** `ActionResponse::parse`: the tag must be 0xC7 and the choice 1 to 4. */
  function ReadResponse(input: seq<byte>): Option<(ActionResponse, seq<byte>)> {
    match TakeByte(input)
    case None => None
    case Some((tag, s1)) =>
      if tag != 0xC7 then None
      else
        match TakeByte(s1)
        case None => None
        case Some((choice, s2)) =>
          match TakeByte(s2)
          case None => None
          case Some((id, s3)) =>
            if choice == 0x01 then ReadNormalResponse(id, s3)
            else if choice == 0x02 then ReadPBlockResponse(id, s3)
            else if choice == 0x03 then ReadListResponse(id, s3)
            else if choice == 0x04 then ReadNextPBlockResponse(id, s3)
            else None
  }

  function ReadNormalResponse(id: byte, s: seq<byte>): Option<(ActionResponse, seq<byte>)> {
    match ParseActionResult(s)
    case None => None
    case Some((res, s1)) => Some((ResponseNormal(id, res), s1))
  }

  function ReadPBlockResponse(id: byte, s: seq<byte>): Option<(ActionResponse, seq<byte>)> {
    match ReadPBlock(s)
    case None => None
    case Some((b, s1)) => Some((ResponseWithPBlock(id, b), s1))
  }

  function ReadListResponse(id: byte, s: seq<byte>): Option<(ActionResponse, seq<byte>)> {
    match TakeByte(s)
    case None => None
    case Some((count, s1)) =>
      match ParseMany(ParseActionResult, s1, count)
      case None => None
      case Some((rs, s2)) => Some((ResponseWithList(id, rs), s2))
  }

  function ReadNextPBlockResponse(id: byte, s: seq<byte>): Option<(ActionResponse, seq<byte>)> {
    match TakeU32(s)
    case None => None
    case Some((n, s1)) => Some((ResponseNextPBlock(id, n), s1))
  }

  /** `ActionResponse::parse`, with the result loop of choice 3. */
  method ParseResponse(input: seq<byte>) returns (r: Option<(ActionResponse, seq<byte>)>)
    ensures r == ReadResponse(input)
  {
    if |input| < 4 || input[0] != 0xC7 || input[1] != 0x03 {
      return ReadResponse(input);
    }
    var id := input[2];
    assert input == [0xC7, 0x03, id] + input[3..];
    ReadResponseChoice(0x03, id, input[3..]);
    assert input[3..][1..] == input[4..];
    var results := ParseManyLoop(ParseActionResult, input[4..], input[3]);
    if results.None? {
      return None;
    }
    return Some((ResponseWithList(id, results.value.0), results.value.1));
  }

  predicate ResponseWellFormed(r: ActionResponse) {
    match r
    case ResponseNormal(_, res) => ActionResultWellFormed(res)
    case ResponseWithList(_, rs) => |rs| <= 255 && forall res :: res in rs ==> ActionResultWellFormed(res)
    case _ => true
  }

  lemma ReadResponseChoice(choice: byte, id: byte, body: seq<byte>)
    ensures ReadResponse([0xC7, choice, id] + body)
      == if choice == 0x01 then ReadNormalResponse(id, body)
         else if choice == 0x02 then ReadPBlockResponse(id, body)
         else if choice == 0x03 then ReadListResponse(id, body)
         else if choice == 0x04 then ReadNextPBlockResponse(id, body)
         else None
  {
    assert [0xC7, choice, id] + body == [0xC7] + ([choice] + ([id] + body));
    TakeByteOf(0xC7, [choice] + ([id] + body));
    TakeByteOf(choice, [id] + body);
    TakeByteOf(id, body);
  }

  /**
   * Parsing what `encode` wrote, followed by anything, gives the response back and stops at
   * the rest, for the choices without a parameter block.
   */
  lemma {:induction false} ResponseRoundTrip(r: ActionResponse, rest: seq<byte>)
    requires ResponseWellFormed(r) && !r.ResponseWithPBlock?
    ensures ReadResponse(ResponseBytes(r) + rest) == Some((r, rest))
  {
    match r
    case ResponseNormal(id, res) =>
      assert ResponseBytes(r) + rest == [0xC7, 0x01, id] + (ActionResultBytes(res) + rest);
      ReadResponseChoice(0x01, id, ActionResultBytes(res) + rest);
      ActionResultRoundTrip(res, rest);
    case ResponseWithList(id, rs) =>
      ListResponseRoundTrip(r, rest);
    case ResponseNextPBlock(id, n) =>
      assert ResponseBytes(r) + rest == [0xC7, 0x04, id] + (U32Bytes(n) + rest);
      ReadResponseChoice(0x04, id, U32Bytes(n) + rest);
      TakeU32Of(n, rest);
  }

  lemma {:induction false} ListResponseRoundTrip(r: ActionResponse, rest: seq<byte>)
    requires r.ResponseWithList? && ResponseWellFormed(r)
    ensures ReadResponse(ResponseBytes(r) + rest) == Some((r, rest))
  {
    var rs := r.results;
    var list := EncodeMany(ActionResultBytes, rs) + rest;
    assert ResponseBytes(r) + rest == [0xC7, 0x03, r.invokeId] + ([|rs|] + list);
    ReadResponseChoice(0x03, r.invokeId, [|rs|] + list);
    TakeByteOf(|rs|, list);
    forall x, t | x in rs
      ensures ParseActionResult(ActionResultBytes(x) + t) == Some((x, t))
    {
      ActionResultRoundTrip(x, t);
    }
    ParseManyEncoded(ParseActionResult, ActionResultBytes, rs, rest);
  }

  /** A parameter block in a response takes the rest of the input as its raw data. */
  lemma {:induction false} PBlockResponseRoundTrip(id: byte, b: DataBlockSa, rest: seq<byte>)
    ensures ReadResponse(ResponseBytes(ResponseWithPBlock(id, b)) + rest)
      == Some((ResponseWithPBlock(id, b.(rawData := b.rawData + rest)), []))
  {
    assert ResponseBytes(ResponseWithPBlock(id, b)) + rest == [0xC7, 0x02, id] + (PBlockBytes(b) + rest);
    ReadResponseChoice(0x02, id, PBlockBytes(b) + rest);
    PBlockRoundTrip(b, rest);
  }

  lemma ResponseBadTagOrChoice(input: seq<byte>)
    requires |input| >= 3 && (input[0] != 0xC7 || input[1] !in {0x01, 0x02, 0x03, 0x04})
    ensures ReadResponse(input) == None
  {
    assert input[1..][0] == input[1];
  }
}
