/**
 * src/set.rs: the SET service APDUs, SET-Request (tag 0xC1) and SET-Response (tag 0xC5).
 * Attribute descriptors, access selectors and Data-Access-Result codes are those of the
 * GET service.
 */
module SetService {
  import opened Bytes
  import opened Wire
  import AxdrData
  import opened GetService

  // ---------------------------------------------------------------------------
  // Building blocks
  // ---------------------------------------------------------------------------

  /** A block of raw octets, written as an octet-string: 0x09, `len() as u8`, the octets. */
  function RawBytes(raw: seq<byte>): (s: seq<byte>)
    ensures |s| == 2 + |raw| && s[..2] == [0x09, |raw| % 256] && s[2..] == raw
  {
    [0x09, |raw| % 256] + raw
  }

  /** The tag must be 0x09; then `take(len)`, which fails when fewer octets are left. */
  function ParseRaw(s: seq<byte>): Option<(seq<byte>, seq<byte>)> {
    match TakeByte(s)
    case None => None
    case Some((tag, s1)) =>
      if tag != 0x09 then None
      else
        match TakeByte(s1)
        case None => None
        case Some((len, s2)) =>
          if |s2| < len then None else Some((s2[..len], s2[len..]))
  }

  lemma {:induction false} RawRoundTrip(raw: seq<byte>, rest: seq<byte>)
    requires |raw| <= 255
    ensures ParseRaw(RawBytes(raw) + rest) == Some((raw, rest))
  {
    assert RawBytes(raw) + rest == [0x09] + ([|raw|] + (raw + rest));
    TakeByteOf(0x09, [|raw|] + (raw + rest));
    TakeByteOf(|raw|, raw + rest);
    assert (raw + rest)[..|raw|] == raw;
    assert (raw + rest)[|raw|..] == rest;
  }

  /** The length octet is `len() as u8`: a block of 256 octets is announced as an empty one. */
  lemma {:induction false} RawCountWraps(raw: seq<byte>)
    requires |raw| == 256
    ensures ParseRaw(RawBytes(raw)) == Some(([], raw))
  {
    assert RawBytes(raw) == [0x09] + ([0] + raw);
    TakeByteOf(0x09, [0] + raw);
    TakeByteOf(0, raw);
  }

  /** A list descriptor: structure tag 0x02, four elements, the descriptor, and no access selection. */
  function ListDescriptorBytes(d: AttributeDescriptor): (s: seq<byte>)
    ensures |s| == 12
  {
    [0x02, 0x04] + DescriptorBytes(d) + [0x00]
  }

  /** Each list descriptor must start with 02 04; its access-selection octet is read and ignored. */
  function ParseListDescriptor(s: seq<byte>): Option<(AttributeDescriptor, seq<byte>)> {
    match TakeByte(s)
    case None => None
    case Some((structTag, s1)) =>
      if structTag != 0x02 then None
      else
        match TakeByte(s1)
        case None => None
        case Some((count, s2)) =>
          if count != 0x04 then None
          else
            match ParseDescriptor(s2)
            case None => None
            case Some((d, s3)) =>
              match TakeByte(s3)
              case None => None
              case Some((_, s4)) => Some((d, s4))
  }

  lemma {:induction false} ListDescriptorRoundTrip(d: AttributeDescriptor, rest: seq<byte>)
    ensures ParseListDescriptor(ListDescriptorBytes(d) + rest) == Some((d, rest))
  {
    var tail := DescriptorBytes(d) + ([0x00] + rest);
    assert ListDescriptorBytes(d) + rest == [0x02] + ([0x04] + tail);
    TakeByteOf(0x02, [0x04] + tail);
    TakeByteOf(0x04, tail);
    DescriptorRoundTrip(d, [0x00] + rest);
    TakeByteOf(0x00, rest);
  }

  /** A descriptor that does not start with 02 04 makes the list fail. */
  lemma ListDescriptorNeedsHeader(s: seq<byte>)
    requires |s| >= 2 && (s[0] != 0x02 || s[1] != 0x04)
    ensures ParseListDescriptor(s) == None
  {
    assert s[1..][0] == s[1];
  }

  /** A result code is one octet, and must be a declared Data-Access-Result. */
  function ResultCodeBytes(e: DataAccessResult): seq<byte> {
    [e]
  }

  function ParseResultCode(s: seq<byte>): Option<(DataAccessResult, seq<byte>)> {
    match TakeByte(s)
    case None => None
    case Some((b, s1)) =>
      match AccessResultFromByte(b)
      case None => None
      case Some(e) => Some((e, s1))
  }

  lemma ResultCodeRoundTrip(e: DataAccessResult, rest: seq<byte>)
    ensures ParseResultCode(ResultCodeBytes(e) + rest) == Some((e, rest))
  {
    TakeByteOf(e, rest);
    AccessResultRoundTrip(e);
  }

  lemma ResultCodeRejected(b: byte, rest: seq<byte>)
    requires !IsAccessResultCode(b)
    ensures ParseResultCode([b] + rest) == None
  {
    TakeByteOf(b, rest);
    AccessResultFromByteExact(b);
  }

  /** An A-XDR array as the SET APDUs write it: tag 0x01, `len() as u8`, the items. */
  function ArrayBytes<T>(enc: T -> seq<byte>, xs: seq<T>): seq<byte> {
    [0x01, |xs| % 256] + EncodeMany(enc, xs)
  }

  /** The array tag 0x01 and the element count. */
  function ReadArrayHeader(s: seq<byte>): Option<(byte, seq<byte>)> {
    match TakeByte(s)
    case None => None
    case Some((tag, s1)) => if tag != 0x01 then None else TakeByte(s1)
  }

  /** The array tag must be 0x01; then `count` items. */
  function ReadArray<T>(p: seq<byte> -> Option<(T, seq<byte>)>, s: seq<byte>): Option<(seq<T>, seq<byte>)> {
    match ReadArrayHeader(s)
    case None => None
    case Some((count, s1)) => ParseMany(p, s1, count)
  }

  /** Writes an array after buf0, with the encoders' loop over its items. */
  method AppendArray<T>(buf0: seq<byte>, enc: T -> seq<byte>, xs: seq<T>) returns (buf: seq<byte>)
    ensures buf == buf0 + ArrayBytes(enc, xs)
  {
    buf := AppendMany(buf0 + [0x01, |xs| % 256], enc, xs);
  }

  /** Reads an array, with the parsers' loop over its items. */
  method ReadArrayLoop<T>(p: seq<byte> -> Option<(T, seq<byte>)>, s: seq<byte>) returns (r: Option<(seq<T>, seq<byte>)>)
    ensures r == ReadArray(p, s)
  {
    var header := ReadArrayHeader(s);
    if header.None? {
      return None;
    }
    r := ParseManyLoop(p, header.value.1, header.value.0);
  }

  lemma ArrayHeaderOf(count: byte, rest: seq<byte>)
    ensures ReadArrayHeader([0x01, count] + rest) == Some((count, rest))
  {
    assert [0x01, count] + rest == [0x01] + ([count] + rest);
    TakeByteOf(0x01, [count] + rest);
    TakeByteOf(count, rest);
  }

  lemma {:induction false} ArrayRoundTrip<T>(p: seq<byte> -> Option<(T, seq<byte>)>, enc: T -> seq<byte>, xs: seq<T>, rest: seq<byte>)
    requires |xs| <= 255
    requires forall x, t :: x in xs ==> p(enc(x) + t) == Some((x, t))
    ensures ReadArray(p, ArrayBytes(enc, xs) + rest) == Some((xs, rest))
  {
    var list := EncodeMany(enc, xs) + rest;
    assert ArrayBytes(enc, xs) + rest == [0x01, |xs|] + list;
    ArrayHeaderOf(|xs|, list);
    ParseManyEncoded(p, enc, xs, rest);
  }

  // ---------------------------------------------------------------------------
  // SET-Request
  // ---------------------------------------------------------------------------

  datatype SetRequest =
    | RequestNormal(invokeId: byte, descriptor: AttributeDescriptor, accessSelection: Option<AccessSelector>,
                    value: AxdrData.Data)
    | RequestFirstDataBlock(invokeId: byte, descriptor: AttributeDescriptor, accessSelection: Option<AccessSelector>,
                            lastBlock: bool, blockNumber: u32, rawData: seq<byte>)
    | RequestWithDataBlock(invokeId: byte, lastBlock: bool, blockNumber: u32, rawData: seq<byte>)
    | RequestWithList(invokeId: byte, descriptors: seq<AttributeDescriptor>, values: seq<AxdrData.Data>)

  function Flag(b: bool): byte {
    if b then 0x01 else 0x00
  }

  /** What `encode` writes: tag 0xC1, the choice (1 to 4), then the choice's fields. */
  function RequestBytes(r: SetRequest): (s: seq<byte>)
    ensures |s| >= 3 && s[0] == 0xC1 && s[2] == r.invokeId
  {
    match r
    case RequestNormal(id, d, a, v) =>
      [0xC1, 0x01, id] + DescriptorBytes(d) + AccessBytes(a) + AxdrData.Encoding(v)
    case RequestFirstDataBlock(id, d, a, last, n, raw) =>
      [0xC1, 0x02, id] + DescriptorBytes(d) + AccessBytes(a) + [Flag(last)] + U32Bytes(n) + RawBytes(raw)
    case RequestWithDataBlock(id, last, n, raw) =>
      [0xC1, 0x03, id, Flag(last)] + U32Bytes(n) + RawBytes(raw)
    case RequestWithList(id, ds, vs) =>
      [0xC1, 0x04, id] + ListBytes(ds, vs)
  }

  /** The descriptor array (tag 0x01, count, descriptors), then the value array. */
  function ListBytes(ds: seq<AttributeDescriptor>, vs: seq<AxdrData.Data>): seq<byte> {
    ArrayBytes(ListDescriptorBytes, ds) + ArrayBytes(AxdrData.Encoding, vs)
  }

  /** `SetRequest::encode`, with its loops over the descriptor and value lists. */
  method EncodeRequest(r: SetRequest) returns (buf: seq<byte>)
    ensures buf == RequestBytes(r)
  {
    match r
    case RequestNormal(id, d, a, v) =>
      buf := [0xC1, 0x01, id] + DescriptorBytes(d);
      buf := buf + AccessBytes(a);
      buf := buf + AxdrData.Encoding(v);
    case RequestFirstDataBlock(id, d, a, last, n, raw) =>
      buf := [0xC1, 0x02, id] + DescriptorBytes(d);
      buf := buf + AccessBytes(a);
      buf := buf + [Flag(last)];
      buf := buf + U32Bytes(n);
      buf := buf + RawBytes(raw);
    case RequestWithDataBlock(id, last, n, raw) =>
      buf := [0xC1, 0x03, id, Flag(last)] + U32Bytes(n);
      buf := buf + RawBytes(raw);
    case RequestWithList(id, ds, vs) =>
      var list := AppendArray([], ListDescriptorBytes, ds);
      assert list == ArrayBytes(ListDescriptorBytes, ds);
      list := AppendArray(list, AxdrData.Encoding, vs);
      buf := [0xC1, 0x04, id] + list;
  }

  /** `SetRequest::parse`: the tag must be 0xC1 and the choice 1 to 4. */
  function ReadRequest(input: seq<byte>): Option<(SetRequest, seq<byte>)> {
    match TakeByte(input)
    case None => None
    case Some((tag, s1)) =>
      if tag != 0xC1 then None
      else
        match TakeByte(s1)
        case None => None
        case Some((choice, s2)) =>
          if choice == 0x01 then ReadNormalRequest(s2)
          else if choice == 0x02 then ReadFirstBlockRequest(s2)
          else if choice == 0x03 then ReadBlockRequest(s2)
          else if choice == 0x04 then ReadListRequest(s2)
          else None
  }

  /** The invoke id, the descriptor and the access selection shared by choices 1 and 2. */
  function ReadTarget(s: seq<byte>): Option<((byte, AttributeDescriptor, Option<AccessSelector>), seq<byte>)> {
    match TakeByte(s)
    case None => None
    case Some((id, s1)) =>
      match ParseDescriptor(s1)
      case None => None
      case Some((d, s2)) =>
        match ParseAccess(s2)
        case None => None
        case Some((a, s3)) => Some(((id, d, a), s3))
  }

  function ReadNormalRequest(s: seq<byte>): Option<(SetRequest, seq<byte>)> {
    match ReadTarget(s)
    case None => None
    case Some(((id, d, a), s1)) =>
      match AxdrData.Parse(s1)
      case None => None
      case Some((v, s2)) => Some((SetRequest.RequestNormal(id, d, a, v), s2))
  }

  /** The last-block octet, the block number and the raw block; any nonzero octet means "last". */
  function ReadBlock(s: seq<byte>): Option<((bool, u32, seq<byte>), seq<byte>)> {
    match TakeByte(s)
    case None => None
    case Some((last, s1)) =>
      match TakeU32(s1)
      case None => None
      case Some((n, s2)) =>
        match ParseRaw(s2)
        case None => None
        case Some((raw, s3)) => Some(((last != 0x00, n, raw), s3))
  }

  function ReadFirstBlockRequest(s: seq<byte>): Option<(SetRequest, seq<byte>)> {
    match ReadTarget(s)
    case None => None
    case Some(((id, d, a), s1)) =>
      match ReadBlock(s1)
      case None => None
      case Some(((last, n, raw), s2)) => Some((RequestFirstDataBlock(id, d, a, last, n, raw), s2))
  }

  function ReadBlockRequest(s: seq<byte>): Option<(SetRequest, seq<byte>)> {
    match TakeByte(s)
    case None => None
    case Some((id, s1)) =>
      match ReadBlock(s1)
      case None => None
      case Some(((last, n, raw), s2)) => Some((RequestWithDataBlock(id, last, n, raw), s2))
  }

  /** Each array must carry tag 0x01. */
  function ReadListRequest(s: seq<byte>): Option<(SetRequest, seq<byte>)> {
    match TakeByte(s)
    case None => None
    case Some((id, s1)) =>
      match ReadArray(ParseListDescriptor, s1)
      case None => None
      case Some((ds, s2)) =>
        match ReadArray(AxdrData.Parse, s2)
        case None => None
        case Some((vs, s3)) => Some((SetRequest.RequestWithList(id, ds, vs), s3))
  }

  /** `SetRequest::parse`, with the descriptor and value loops of the list choice. */
  method ParseRequest(input: seq<byte>) returns (r: Option<(SetRequest, seq<byte>)>)
    ensures r == ReadRequest(input)
  {
    if |input| < 2 || input[0] != 0xC1 || input[1] != 0x04 {
      return ReadRequest(input);
    }
    assert input == [0xC1, 0x04] + input[2..];
    ReadRequestChoice(0x04, input[2..]);
    r := ParseListRequest(input[2..]);
  }

  method ParseListRequest(s: seq<byte>) returns (r: Option<(SetRequest, seq<byte>)>)
    ensures r == ReadListRequest(s)
  {
    if |s| < 1 {
      return None;
    }
    var ds := ReadArrayLoop(ParseListDescriptor, s[1..]);
    if ds.None? {
      return None;
    }
    var vs := ReadArrayLoop(AxdrData.Parse, ds.value.1);
    if vs.None? {
      return None;
    }
    return Some((SetRequest.RequestWithList(s[0], ds.value.0, vs.value.0), vs.value.1));
  }

  /** What the encoding can carry: Data values the codec reads back, and counts that fit one octet. */
  predicate RequestWellFormed(r: SetRequest) {
    match r
    case RequestNormal(_, _, a, v) => AccessWellFormed(a) && AxdrData.WellFormed(v)
    case RequestFirstDataBlock(_, _, a, _, _, raw) => AccessWellFormed(a) && |raw| <= 255
    case RequestWithDataBlock(_, _, _, raw) => |raw| <= 255
    case RequestWithList(_, ds, vs) =>
      |ds| <= 255 && |vs| <= 255 && forall v :: v in vs ==> AxdrData.WellFormed(v)
  }

  lemma ReadRequestChoice(choice: byte, body: seq<byte>)
    ensures ReadRequest([0xC1, choice] + body)
      == if choice == 0x01 then ReadNormalRequest(body)
         else if choice == 0x02 then ReadFirstBlockRequest(body)
         else if choice == 0x03 then ReadBlockRequest(body)
         else if choice == 0x04 then ReadListRequest(body)
         else None
  {
    TakeByteOf(0xC1, [choice] + body);
    TakeByteOf(choice, body);
    assert [0xC1, choice] + body == [0xC1] + ([choice] + body);
  }

  /** Parsing what `encode` wrote, followed by anything, gives the request back and stops at the rest. */
  lemma {:induction false} RequestRoundTrip(r: SetRequest, rest: seq<byte>)
    requires RequestWellFormed(r)
    ensures ReadRequest(RequestBytes(r) + rest) == Some((r, rest))
  {
    match r
    case RequestNormal(_, _, _, _) => NormalRequestRoundTrip(r, rest);
    case RequestFirstDataBlock(_, _, _, _, _, _) => FirstBlockRequestRoundTrip(r, rest);
    case RequestWithDataBlock(_, _, _, _) => BlockRequestRoundTrip(r, rest);
    case RequestWithList(_, _, _) => ListRequestRoundTrip(r, rest);
  }

  lemma {:induction false} TargetRoundTrip(id: byte, d: AttributeDescriptor, a: Option<AccessSelector>, rest: seq<byte>)
    requires AccessWellFormed(a)
    ensures ReadTarget([id] + (DescriptorBytes(d) + (AccessBytes(a) + rest))) == Some(((id, d, a), rest))
  {
    var tail := AccessBytes(a) + rest;
    TakeByteOf(id, DescriptorBytes(d) + tail);
    DescriptorRoundTrip(d, tail);
    AccessRoundTrip(a, rest);
  }

  lemma {:induction false} BlockRoundTrip(last: bool, n: u32, raw: seq<byte>, rest: seq<byte>)
    requires |raw| <= 255
    ensures ReadBlock([Flag(last)] + (U32Bytes(n) + (RawBytes(raw) + rest))) == Some(((last, n, raw), rest))
  {
    var tail := RawBytes(raw) + rest;
    TakeByteOf(Flag(last), U32Bytes(n) + tail);
    TakeU32Of(n, tail);
    RawRoundTrip(raw, rest);
  }

  lemma {:induction false} NormalRequestRoundTrip(r: SetRequest, rest: seq<byte>)
    requires r.RequestNormal? && RequestWellFormed(r)
    ensures ReadRequest(RequestBytes(r) + rest) == Some((r, rest))
  {
    var (h, d, a) := ([0xC1, 0x01, r.invokeId], DescriptorBytes(r.descriptor), AccessBytes(r.accessSelection));
    var tail := AxdrData.Encoding(r.value) + rest;
    Regroup(h + d + a, AxdrData.Encoding(r.value), rest);
    Regroup(h + d, a, tail);
    Regroup(h, d, a + tail);
    HeadRegroup(0xC1, 0x01, r.invokeId, d + (a + tail));
    ReadRequestChoice(0x01, [r.invokeId] + (d + (a + tail)));
    TargetRoundTrip(r.invokeId, r.descriptor, r.accessSelection, tail);
    AxdrData.ParseEncoding(r.value, rest);
  }

  lemma {:induction false} FirstBlockRequestRoundTrip(r: SetRequest, rest: seq<byte>)
    requires r.RequestFirstDataBlock? && RequestWellFormed(r)
    ensures ReadRequest(RequestBytes(r) + rest) == Some((r, rest))
  {
    var (h, d, a) := ([0xC1, 0x02, r.invokeId], DescriptorBytes(r.descriptor), AccessBytes(r.accessSelection));
    var (f, n, raw) := ([Flag(r.lastBlock)], U32Bytes(r.blockNumber), RawBytes(r.rawData));
    var block := f + (n + (raw + rest));
    Regroup(h + d + a + f + n, raw, rest);
    Regroup(h + d + a + f, n, raw + rest);
    Regroup(h + d + a, f, n + (raw + rest));
    Regroup(h + d, a, block);
    Regroup(h, d, a + block);
    HeadRegroup(0xC1, 0x02, r.invokeId, d + (a + block));
    ReadRequestChoice(0x02, [r.invokeId] + (d + (a + block)));
    TargetRoundTrip(r.invokeId, r.descriptor, r.accessSelection, block);
    BlockRoundTrip(r.lastBlock, r.blockNumber, r.rawData, rest);
  }

  lemma {:induction false} BlockRequestRoundTrip(r: SetRequest, rest: seq<byte>)
    requires r.RequestWithDataBlock? && RequestWellFormed(r)
    ensures ReadRequest(RequestBytes(r) + rest) == Some((r, rest))
  {
    var block := [Flag(r.lastBlock)] + (U32Bytes(r.blockNumber) + (RawBytes(r.rawData) + rest));
    assert RequestBytes(r) + rest == [0xC1, 0x03] + ([r.invokeId] + block);
    ReadRequestChoice(0x03, [r.invokeId] + block);
    TakeByteOf(r.invokeId, block);
    BlockRoundTrip(r.lastBlock, r.blockNumber, r.rawData, rest);
  }

  lemma {:induction false} ListRequestRoundTrip(r: SetRequest, rest: seq<byte>)
    requires r.RequestWithList? && RequestWellFormed(r)
    ensures ReadRequest(RequestBytes(r) + rest) == Some((r, rest))
  {
    var ds := r.descriptors;
    var vs := r.values;
    var values := ArrayBytes(AxdrData.Encoding, vs) + rest;
    var body := [r.invokeId] + (ArrayBytes(ListDescriptorBytes, ds) + values);
    assert RequestBytes(r) + rest == [0xC1, 0x04] + body;
    ReadRequestChoice(0x04, body);
    TakeByteOf(r.invokeId, ArrayBytes(ListDescriptorBytes, ds) + values);
    forall x, t | x in ds
      ensures ParseListDescriptor(ListDescriptorBytes(x) + t) == Some((x, t))
    {
      ListDescriptorRoundTrip(x, t);
    }
    ArrayRoundTrip(ParseListDescriptor, ListDescriptorBytes, ds, values);
    forall x, t | x in vs
      ensures AxdrData.Parse(AxdrData.Encoding(x) + t) == Some((x, t))
    {
      AxdrData.ParseEncoding(x, t);
    }
    ArrayRoundTrip(AxdrData.Parse, AxdrData.Encoding, vs, rest);
  }

  lemma RequestBadTagOrChoice(input: seq<byte>)
    requires |input| >= 2 && (input[0] != 0xC1 || input[1] !in {0x01, 0x02, 0x03, 0x04})
    ensures ReadRequest(input) == None
  {
    assert input[1..][0] == input[1];
  }

  // ---------------------------------------------------------------------------
  // SET-Response
  // ---------------------------------------------------------------------------

  datatype SetResponse =
    | ResponseNormal(invokeId: byte, result: DataAccessResult)
    | ResponseDataBlock(invokeId: byte, blockNumber: u32)
    | ResponseLastDataBlock(invokeId: byte, result: DataAccessResult, blockNumber: u32)
    | ResponseLastDataBlockWithList(invokeId: byte, results: seq<DataAccessResult>, blockNumber: u32)
    | ResponseWithList(invokeId: byte, results: seq<DataAccessResult>)

  /** The result array: tag 0x01, `len() as u8`, one octet per result. */
  function ResultsBytes(rs: seq<DataAccessResult>): seq<byte> {
    ArrayBytes(ResultCodeBytes, rs)
  }

  /** What `encode` writes: tag 0xC5, the choice (1 to 5), then the choice's fields. */
  function ResponseBytes(r: SetResponse): (s: seq<byte>)
    ensures |s| >= 3 && s[0] == 0xC5 && s[2] == r.invokeId
  {
    match r
    case ResponseNormal(id, e) => [0xC5, 0x01, id, e]
    case ResponseDataBlock(id, n) => [0xC5, 0x02, id] + U32Bytes(n)
    case ResponseLastDataBlock(id, e, n) => [0xC5, 0x03, id, e] + U32Bytes(n)
    case ResponseLastDataBlockWithList(id, rs, n) => [0xC5, 0x04, id] + ResultsBytes(rs) + U32Bytes(n)
    case ResponseWithList(id, rs) => [0xC5, 0x05, id] + ResultsBytes(rs)
  }

  /** SET-Response-Normal is exactly four octets. */
  lemma NormalResponseLayout(id: byte, e: DataAccessResult)
    ensures ResponseBytes(SetResponse.ResponseNormal(id, e)) == [0xC5, 0x01, id, e]
    ensures ResponseBytes(SetResponse.ResponseNormal(0x01, Success)) == [0xC5, 0x01, 0x01, 0x00]
  {
  }

  /** `SetResponse::encode`, with its loops over the result lists. */
  method EncodeResponse(r: SetResponse) returns (buf: seq<byte>)
    ensures buf == ResponseBytes(r)
  {
    match r
    case ResponseNormal(id, e) =>
      buf := [0xC5, 0x01, id, e];
    case ResponseDataBlock(id, n) =>
      buf := [0xC5, 0x02, id] + U32Bytes(n);
    case ResponseLastDataBlock(id, e, n) =>
      buf := [0xC5, 0x03, id, e] + U32Bytes(n);
    case ResponseLastDataBlockWithList(id, rs, n) =>
      buf := AppendArray([0xC5, 0x04, id], ResultCodeBytes, rs);
      buf := buf + U32Bytes(n);
    case ResponseWithList(id, rs) =>
      buf := AppendArray([0xC5, 0x05, id], ResultCodeBytes, rs);
  }

  /** `SetResponse::parse`: the tag must be 0xC5 and the choice 1 to 5. */
  function ReadResponse(input: seq<byte>): Option<(SetResponse, seq<byte>)> {
    match TakeByte(input)
    case None => None
    case Some((tag, s1)) =>
      if tag != 0xC5 then None
      else
        match TakeByte(s1)
        case None => None
        case Some((choice, s2)) =>
          match TakeByte(s2)
          case None => None
          case Some((id, s3)) =>
            if choice == 0x01 then ReadNormalResponse(id, s3)
            else if choice == 0x02 then ReadDataBlockResponse(id, s3)
            else if choice == 0x03 then ReadLastBlockResponse(id, s3)
            else if choice == 0x04 then ReadLastBlockListResponse(id, s3)
            else if choice == 0x05 then ReadListResponse(id, s3)
            else None
  }

  function ReadNormalResponse(id: byte, s: seq<byte>): Option<(SetResponse, seq<byte>)> {
    match ParseResultCode(s)
    case None => None
    case Some((e, s1)) => Some((SetResponse.ResponseNormal(id, e), s1))
  }

  function ReadDataBlockResponse(id: byte, s: seq<byte>): Option<(SetResponse, seq<byte>)> {
    match TakeU32(s)
    case None => None
    case Some((n, s1)) => Some((ResponseDataBlock(id, n), s1))
  }

  function ReadLastBlockResponse(id: byte, s: seq<byte>): Option<(SetResponse, seq<byte>)> {
    match ParseResultCode(s)
    case None => None
    case Some((e, s1)) =>
      match TakeU32(s1)
      case None => None
      case Some((n, s2)) => Some((ResponseLastDataBlock(id, e, n), s2))
  }

  function ReadResults(s: seq<byte>): Option<(seq<DataAccessResult>, seq<byte>)> {
    ReadArray(ParseResultCode, s)
  }

  function ReadLastBlockListResponse(id: byte, s: seq<byte>): Option<(SetResponse, seq<byte>)> {
    match ReadResults(s)
    case None => None
    case Some((rs, s1)) =>
      match TakeU32(s1)
      case None => None
      case Some((n, s2)) => Some((ResponseLastDataBlockWithList(id, rs, n), s2))
  }

  function ReadListResponse(id: byte, s: seq<byte>): Option<(SetResponse, seq<byte>)> {
    match ReadResults(s)
    case None => None
    case Some((rs, s1)) => Some((SetResponse.ResponseWithList(id, rs), s1))
  }

  /** `SetResponse::parse`, with the result loops of the two list choices. */
  method ParseResponse(input: seq<byte>) returns (r: Option<(SetResponse, seq<byte>)>)
    ensures r == ReadResponse(input)
  {
    if |input| < 3 || input[0] != 0xC5 || input[1] !in {0x04, 0x05} {
      return ReadResponse(input);
    }
    var id := input[2];
    assert input == [0xC5, input[1], id] + input[3..];
    ReadResponseChoice(input[1], id, input[3..]);
    var results := ReadArrayLoop(ParseResultCode, input[3..]);
    if results.None? {
      return None;
    }
    var (rs, rest) := results.value;
    if input[1] == 0x05 {
      return Some((SetResponse.ResponseWithList(id, rs), rest));
    }
    var n := TakeU32(rest);
    if n.None? {
      return None;
    }
    return Some((SetResponse.ResponseLastDataBlockWithList(id, rs, n.value.0), n.value.1));
  }

  predicate ResponseWellFormed(r: SetResponse) {
    match r
    case ResponseLastDataBlockWithList(_, rs, _) => |rs| <= 255
    case ResponseWithList(_, rs) => |rs| <= 255
    case _ => true
  }

  lemma ReadResponseChoice(choice: byte, id: byte, body: seq<byte>)
    ensures ReadResponse([0xC5, choice, id] + body)
      == if choice == 0x01 then ReadNormalResponse(id, body)
         else if choice == 0x02 then ReadDataBlockResponse(id, body)
         else if choice == 0x03 then ReadLastBlockResponse(id, body)
         else if choice == 0x04 then ReadLastBlockListResponse(id, body)
         else if choice == 0x05 then ReadListResponse(id, body)
         else None
  {
    assert [0xC5, choice, id] + body == [0xC5] + ([choice] + ([id] + body));
    TakeByteOf(0xC5, [choice] + ([id] + body));
    TakeByteOf(choice, [id] + body);
    TakeByteOf(id, body);
  }

  lemma {:induction false} ResultsRoundTrip(rs: seq<DataAccessResult>, rest: seq<byte>)
    requires |rs| <= 255
    ensures ReadResults(ResultsBytes(rs) + rest) == Some((rs, rest))
  {
    forall x, t | x in rs
      ensures ParseResultCode(ResultCodeBytes(x) + t) == Some((x, t))
    {
      ResultCodeRoundTrip(x, t);
    }
    ArrayRoundTrip(ParseResultCode, ResultCodeBytes, rs, rest);
  }

  /** Parsing what `encode` wrote, followed by anything, gives the response back and stops at the rest. */
  lemma {:induction false} ResponseRoundTrip(r: SetResponse, rest: seq<byte>)
    requires ResponseWellFormed(r)
    ensures ReadResponse(ResponseBytes(r) + rest) == Some((r, rest))
  {
    if r.ResponseNormal? || r.ResponseLastDataBlock? {
      ResultResponseRoundTrip(r, rest);
    } else if r.ResponseDataBlock? {
      DataBlockResponseRoundTrip(r, rest);
    } else {
      ListResponseRoundTrip(r, rest);
    }
  }

  lemma {:induction false} ResultResponseRoundTrip(r: SetResponse, rest: seq<byte>)
    requires r.ResponseNormal? || r.ResponseLastDataBlock?
    ensures ReadResponse(ResponseBytes(r) + rest) == Some((r, rest))
  {
    if r.ResponseNormal? {
      assert ResponseBytes(r) + rest == [0xC5, 0x01, r.invokeId] + ([r.result] + rest);
      ReadResponseChoice(0x01, r.invokeId, [r.result] + rest);
      ResultCodeRoundTrip(r.result, rest);
    } else {
      var tail := U32Bytes(r.blockNumber) + rest;
      assert ResponseBytes(r) + rest == [0xC5, 0x03, r.invokeId] + ([r.result] + tail);
      ReadResponseChoice(0x03, r.invokeId, [r.result] + tail);
      ResultCodeRoundTrip(r.result, tail);
      TakeU32Of(r.blockNumber, rest);
    }
  }

  lemma {:induction false} DataBlockResponseRoundTrip(r: SetResponse, rest: seq<byte>)
    requires r.ResponseDataBlock?
    ensures ReadResponse(ResponseBytes(r) + rest) == Some((r, rest))
  {
    assert ResponseBytes(r) + rest == [0xC5, 0x02, r.invokeId] + (U32Bytes(r.blockNumber) + rest);
    ReadResponseChoice(0x02, r.invokeId, U32Bytes(r.blockNumber) + rest);
    TakeU32Of(r.blockNumber, rest);
  }

  lemma {:induction false} ListResponseRoundTrip(r: SetResponse, rest: seq<byte>)
    requires (r.ResponseLastDataBlockWithList? || r.ResponseWithList?) && ResponseWellFormed(r)
    ensures ReadResponse(ResponseBytes(r) + rest) == Some((r, rest))
  {
    if r.ResponseWithList? {
      assert ResponseBytes(r) + rest == [0xC5, 0x05, r.invokeId] + (ResultsBytes(r.results) + rest);
      ReadResponseChoice(0x05, r.invokeId, ResultsBytes(r.results) + rest);
      ResultsRoundTrip(r.results, rest);
    } else {
      var tail := U32Bytes(r.blockNumber) + rest;
      assert ResponseBytes(r) + rest == [0xC5, 0x04, r.invokeId] + (ResultsBytes(r.results) + tail);
      ReadResponseChoice(0x04, r.invokeId, ResultsBytes(r.results) + tail);
      ResultsRoundTrip(r.results, tail);
      TakeU32Of(r.blockNumber, rest);
    }
  }

  /** A result octet that is not a declared code makes the response fail (the library's own example: 0xFF). */
  lemma BadResultCode(id: byte, code: byte, rest: seq<byte>)
    requires !IsAccessResultCode(code)
    ensures ReadResponse([0xC5, 0x01, id, code] + rest) == None
    ensures ReadResponse([0xC5, 0x03, id, code] + rest) == None
  {
    assert [0xC5, 0x01, id, code] + rest == [0xC5, 0x01, id] + ([code] + rest);
    assert [0xC5, 0x03, id, code] + rest == [0xC5, 0x03, id] + ([code] + rest);
    ReadResponseChoice(0x01, id, [code] + rest);
    ReadResponseChoice(0x03, id, [code] + rest);
    ResultCodeRejected(code, rest);
  }

  lemma ResponseBadTagOrChoice(input: seq<byte>)
    requires |input| >= 3 && (input[0] != 0xC5 || input[1] !in {0x01, 0x02, 0x03, 0x04, 0x05})
    ensures ReadResponse(input) == None
  {
    assert input[1..][0] == input[1];
  }
}
