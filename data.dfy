/**
 * src/data.rs: the A-XDR encoding of COSEM data values (DLMS UA 1000-2, the Green
 * Book, Ed. 12, section 4.1.6): a one-octet type tag followed by the value, integers
 * big-endian, strings and structures prefixed by a one-octet count.
 */
module AxdrData {
  import opened Bytes

  // ---------------------------------------------------------------------------
  // Type tags (lines 19-80)
  // ---------------------------------------------------------------------------

  datatype DataType =
    | NullType | ArrayType | StructureType | BoolType | BitStringType | DoubleLongType
    | DoubleLongUnsignedType | OctetStringType | VisibleStringType | Utf8StringType
    | BcdType | IntegerType | LongType | UnsignedType | LongUnsignedType | CompactArrayType
    | Long64Type | Long64UnsignedType | EnumType | Float32Type | Float64Type
    | DateTimeType | DateType | TimeType

  /** The discriminant of each type, as declared. */
  function TypeCode(t: DataType): byte {
    match t
    case NullType => 0x00
    case ArrayType => 0x01
    case StructureType => 0x02
    case BoolType => 0x03
    case BitStringType => 0x04
    case DoubleLongType => 0x05
    case DoubleLongUnsignedType => 0x06
    case OctetStringType => 0x09
    case VisibleStringType => 0x0a
    case Utf8StringType => 0x0c
    case BcdType => 0x0d
    case IntegerType => 0x0f
    case LongType => 0x10
    case UnsignedType => 0x11
    case LongUnsignedType => 0x12
    case CompactArrayType => 0x13
    case Long64Type => 0x14
    case Long64UnsignedType => 0x15
    case EnumType => 0x16
    case Float32Type => 0x17
    case Float64Type => 0x18
    case DateTimeType => 0x19
    case DateType => 0x1a
    case TimeType => 0x1b
  }

  /** `DataType::try_from(u8)`: the type with that code, or the byte back as the error. */
  function DataTypeFromByte(b: byte): Result<DataType, byte> {
    match b
    case 0x00 => Ok(NullType)
    case 0x01 => Ok(ArrayType)
    case 0x02 => Ok(StructureType)
    case 0x03 => Ok(BoolType)
    case 0x04 => Ok(BitStringType)
    case 0x05 => Ok(DoubleLongType)
    case 0x06 => Ok(DoubleLongUnsignedType)
    case 0x09 => Ok(OctetStringType)
    case 0x0a => Ok(VisibleStringType)
    case 0x0c => Ok(Utf8StringType)
    case 0x0d => Ok(BcdType)
    case 0x0f => Ok(IntegerType)
    case 0x10 => Ok(LongType)
    case 0x11 => Ok(UnsignedType)
    case 0x12 => Ok(LongUnsignedType)
    case 0x13 => Ok(CompactArrayType)
    case 0x14 => Ok(Long64Type)
    case 0x15 => Ok(Long64UnsignedType)
    case 0x16 => Ok(EnumType)
    case 0x17 => Ok(Float32Type)
    case 0x18 => Ok(Float64Type)
    case 0x19 => Ok(DateTimeType)
    case 0x1a => Ok(DateType)
    case 0x1b => Ok(TimeType)
    case _ => Err(b)
  }

  /** The codes `try_from` accepts: 0x00-0x06, 0x09-0x0a, 0x0c-0x0d and 0x0f-0x1b. */
  predicate KnownTypeCode(b: int) {
    0x00 <= b <= 0x06 || 0x09 <= b <= 0x0a || 0x0c <= b <= 0x0d || 0x0f <= b <= 0x1b
  }

  lemma DataTypeFromByteExact(b: byte)
    ensures DataTypeFromByte(b).Ok? <==> KnownTypeCode(b)
    ensures DataTypeFromByte(b).Ok? ==> TypeCode(DataTypeFromByte(b).value) == b
    ensures DataTypeFromByte(b).Err? ==> DataTypeFromByte(b).error == b
  {
  }

  lemma DataTypeRoundTrip(t: DataType)
    ensures DataTypeFromByte(TypeCode(t)) == Ok(t)
  {
  }

  // ---------------------------------------------------------------------------
  // Date, Time, DateTime (lines 83-528)
  // ---------------------------------------------------------------------------

  datatype CosemDate = CosemDate(year: u16, month: byte, dayOfMonth: byte, dayOfWeek: byte)

  datatype CosemTime = CosemTime(hour: Option<byte>, minute: Option<byte>, second: Option<byte>, hundredth: Option<byte>)

  /** The clock status octet; the five flag bits are read by the predicates below. */
  datatype ClockStatus = ClockStatus(bits: byte)

  datatype CosemDateTime = CosemDateTime(date: CosemDate, time: CosemTime, offsetMinutes: Option<i16>, clockStatus: Option<ClockStatus>)

  /** The year big-endian, then month, day of month and day of week. */
  function EncodeDate(d: CosemDate): (s: seq<byte>)
    ensures |s| == 5 && s[2] == d.month && s[3] == d.dayOfMonth && s[4] == d.dayOfWeek
    ensures BeValue(s[..2]) == d.year
  {
    BeValueOfBytes(d.year, 2);
    assert (EncodeUnsigned(d.year, 2) + [d.month, d.dayOfMonth, d.dayOfWeek])[..2] == EncodeUnsigned(d.year, 2);
    EncodeUnsigned(d.year, 2) + [d.month, d.dayOfMonth, d.dayOfWeek]
  }

  /** Any five octets are a date. */
  function ParseDate(s: seq<byte>): (r: Option<(CosemDate, seq<byte>)>)
    ensures r.Some? <==> |s| >= 5
    ensures r.Some? ==> r.value.1 == s[5..]
  {
    if |s| < 5 then None
    else
      var year := BeValue(s[..2]);
      Some((CosemDate(year, s[2], s[3], s[4]), s[5..]))
  }

  lemma {:induction false} DateRoundTrip(d: CosemDate, rest: seq<byte>)
    ensures ParseDate(EncodeDate(d) + rest) == Some((d, rest))
  {
    var s := EncodeDate(d) + rest;
    assert s[..2] == EncodeDate(d)[..2];
    assert s[5..] == rest;
  }

  /** A wildcard (None) is written as 0xFF. */
  function Wild(o: Option<byte>): byte {
    if o.Some? then o.value else 0xFF
  }

  function EncodeTime(t: CosemTime): (s: seq<byte>)
    ensures |s| == 4
  {
    [Wild(t.hour), Wild(t.minute), Wild(t.second), Wild(t.hundredth)]
  }

  /** One time field: 0xFF is the wildcard, a value up to max is kept, anything else fails. */
  function TimeField(b: byte, max: nat): (r: Option<Option<byte>>)
    ensures r == None <==> b != 0xFF && b > max
    ensures r == Some(None) <==> b == 0xFF
  {
    if b == 0xFF then Some(None) else if b <= max then Some(Some(b)) else None
  }

  function ParseTime(s: seq<byte>): (r: Option<(CosemTime, seq<byte>)>)
    ensures r.Some? ==> |s| >= 4 && r.value.1 == s[4..]
  {
    if |s| < 4 then None
    else
      var h := TimeField(s[0], 23);
      var m := TimeField(s[1], 59);
      var sec := TimeField(s[2], 59);
      var c := TimeField(s[3], 99);
      if h.None? || m.None? || sec.None? || c.None? then None
      else Some((CosemTime(h.value, m.value, sec.value, c.value), s[4..]))
  }

  /** Each present field is within its range: hour 0-23, minute and second 0-59, hundredth 0-99. */
  predicate InRange(o: Option<byte>, max: nat) { o.Some? ==> o.value <= max }

  predicate ValidTime(t: CosemTime) {
    InRange(t.hour, 23) && InRange(t.minute, 59) && InRange(t.second, 59) && InRange(t.hundredth, 99)
  }

  /** `Time::parse` accepts four octets exactly when each is the wildcard or within its range. */
  lemma ParseTimeAccepts(s: seq<byte>)
    requires |s| >= 4
    ensures ParseTime(s).Some? <==>
      (s[0] == 0xFF || s[0] <= 23) && (s[1] == 0xFF || s[1] <= 59) &&
      (s[2] == 0xFF || s[2] <= 59) && (s[3] == 0xFF || s[3] <= 99)
  {
  }

  lemma {:induction false} TimeRoundTrip(t: CosemTime, rest: seq<byte>)
    requires ValidTime(t)
    ensures ParseTime(EncodeTime(t) + rest) == Some((t, rest))
  {
    var s := EncodeTime(t) + rest;
    assert s[4..] == rest;
  }

  /** A present 0xFF is written as the wildcard and so comes back as None. */
  lemma {:induction false} TimeWildcardCollapses(t: CosemTime, rest: seq<byte>)
    requires t.hour == Some(0xFF) && InRange(t.minute, 59) && InRange(t.second, 59) && InRange(t.hundredth, 99)
    ensures ParseTime(EncodeTime(t) + rest) == Some((t.(hour := None), rest))
  {
    var s := EncodeTime(t) + rest;
    assert s[4..] == rest;
  }

  /** A None offset is written as 0x8000 (-32768 as i16), a None status as 0xFF. */
  function EncodeDateTime(dt: CosemDateTime): (s: seq<byte>)
    ensures |s| == 12
    ensures s[..5] == EncodeDate(dt.date) && s[5..9] == EncodeTime(dt.time)
  {
    var offset: i16 := if dt.offsetMinutes.Some? then dt.offsetMinutes.value else -0x8000;
    var status: byte := if dt.clockStatus.Some? then dt.clockStatus.value.bits else 0xFF;
    EncodeDate(dt.date) + EncodeTime(dt.time) + EncodeSigned(offset, 2) + [status]
  }

  function ParseDateTime(s: seq<byte>): (r: Option<(CosemDateTime, seq<byte>)>)
    ensures r.Some? ==> |s| >= 12 && r.value.1 == s[12..]
  {
    match ParseDate(s)
    case None => None
    case Some((date, s1)) =>
      match ParseTime(s1)
      case None => None
      case Some((time, s2)) =>
        match TakeSigned(s2, 2)
        case None => None
        case Some((offset, s3)) =>
          if |s3| < 1 then None
          else
            var offsetMinutes := if offset == -0x8000 then None else Some(offset as i16);
            var status := if s3[0] == 0xFF then None else Some(ClockStatus(s3[0]));
            Some((CosemDateTime(date, time, offsetMinutes, status), s3[1..]))
  }

  /** A date-time round-trips when its time is valid and no present field equals a wildcard code. */
  predicate ValidDateTime(dt: CosemDateTime) {
    ValidTime(dt.time)
    && dt.offsetMinutes != Some(-0x8000)
    && (dt.clockStatus.Some? ==> dt.clockStatus.value.bits != 0xFF)
  }

  lemma {:induction false} DateTimeRoundTrip(dt: CosemDateTime, rest: seq<byte>)
    requires ValidDateTime(dt)
    ensures ParseDateTime(EncodeDateTime(dt) + rest) == Some((dt, rest))
  {
    var offset: i16 := if dt.offsetMinutes.Some? then dt.offsetMinutes.value else -0x8000;
    var status: byte := if dt.clockStatus.Some? then dt.clockStatus.value.bits else 0xFF;
    var e2 := EncodeSigned(offset, 2);
    var s := EncodeDateTime(dt) + rest;
    assert s == EncodeDate(dt.date) + (EncodeTime(dt.time) + (e2 + ([status] + rest)));
    DateRoundTrip(dt.date, EncodeTime(dt.time) + (e2 + ([status] + rest)));
    TimeRoundTrip(dt.time, e2 + ([status] + rest));
    TakeSignedEncoded(offset, 2, [status] + rest);
    assert ([status] + rest)[1..] == rest;
  }

  /** The wildcards of a date-time: an absent offset and an absent status come back absent. */
  lemma {:induction false} DateTimeWildcards(date: CosemDate, time: CosemTime, rest: seq<byte>)
    requires ValidTime(time)
    ensures var s := EncodeDateTime(CosemDateTime(date, time, None, None));
      s[9..] == [0x80, 0x00, 0xFF] && ParseDateTime(s + rest) == Some((CosemDateTime(date, time, None, None), rest))
  {
    DateTimeRoundTrip(CosemDateTime(date, time, None, None), rest);
  }

  // ---------------------------------------------------------------------------
  // ClockStatus bits (lines 336-367)
  // ---------------------------------------------------------------------------

  /** Bit k of an octet. */
  function Bit(b: byte, k: nat): bool
    requires k < 8
  {
    (b as bv8) & (1 << k) != 0
  }

  function InvalidValue(c: ClockStatus): bool { Bit(c.bits, 0) }
  function DoubtfulValue(c: ClockStatus): bool { Bit(c.bits, 1) }
  function DifferentBase(c: ClockStatus): bool { Bit(c.bits, 2) }
  function InvalidStatus(c: ClockStatus): bool { Bit(c.bits, 3) }
  function DaylightSaving(c: ClockStatus): bool { Bit(c.bits, 7) }

  /** The daylight-saving flag is the top bit and the invalid-value flag the bottom bit. */
  lemma ClockStatusFlags(c: ClockStatus)
    ensures DaylightSaving(c) <==> c.bits >= 0x80
    ensures InvalidValue(c) <==> c.bits % 2 == 1
  {
    var v := c.bits as bv8;
    assert DaylightSaving(c) <==> v & 0x80 != 0;
    assert v & 0x80 != 0 <==> v >= 0x80;
    assert InvalidValue(c) <==> v & 1 != 0;
    assert v & 1 != 0 <==> v % 2 == 1;
  }

  // ---------------------------------------------------------------------------
  // Data values (lines 530-883)
  // ---------------------------------------------------------------------------

  /**
   * A COSEM value.  A UTF-8 string is held as its octets; Float32 and Float64 are held as
   * their IEEE 754 bit patterns, which is all the codec ever touches.
   */
  datatype Data =
    | Null
    | OctetString(bytes: seq<byte>)
    | Utf8String(utf8: seq<byte>)
    | Integer(i8: i8)
    | Unsigned(u8: byte)
    | Long(i16: i16)
    | LongUnsigned(u16: u16)
    | DoubleLong(i32: i32)
    | DoubleLongUnsigned(u32: u32)
    | Long64(i64: i64)
    | Long64Unsigned(u64: u64)
    | Float32(bits32: u32)
    | Float64(bits64: u64)
    | DateTime(dateTime: CosemDateTime)
    | Date(date: CosemDate)
    | Time(time: CosemTime)
    | Structure(elements: seq<Data>)
    | Enum(enumValue: byte)

  /** The type tag `encode` writes first. */
  function TypeOf(d: Data): DataType {
    match d
    case Null => NullType
    case OctetString(_) => OctetStringType
    case Utf8String(_) => Utf8StringType
    case Integer(_) => IntegerType
    case Unsigned(_) => UnsignedType
    case Long(_) => LongType
    case LongUnsigned(_) => LongUnsignedType
    case DoubleLong(_) => DoubleLongType
    case DoubleLongUnsigned(_) => DoubleLongUnsignedType
    case Long64(_) => Long64Type
    case Long64Unsigned(_) => Long64UnsignedType
    case Float32(_) => Float32Type
    case Float64(_) => Float64Type
    case DateTime(_) => DateTimeType
    case Date(_) => DateType
    case Time(_) => TimeType
    case Structure(_) => StructureType
    case Enum(_) => EnumType
  }

  /**
   * What `Data::encode` produces.  Lengths and element counts are written with
   * `len() as u8`, so they are taken modulo 256.
   */
  function Encoding(d: Data): (s: seq<byte>)
    ensures |s| > 0 && s[0] == TypeCode(TypeOf(d))
    decreases d, 1
  {
    [TypeCode(TypeOf(d))] +
    match d
    case Null => []
    case OctetString(b) => [|b| % 256] + b
    case Utf8String(b) => [|b| % 256] + b
    case Integer(v) => EncodeSigned(v, 1)
    case Unsigned(v) => [v]
    case Long(v) => EncodeSigned(v, 2)
    case LongUnsigned(v) => EncodeUnsigned(v, 2)
    case DoubleLong(v) => EncodeSigned(v, 4)
    case DoubleLongUnsigned(v) => EncodeUnsigned(v, 4)
    case Long64(v) => EncodeSigned(v, 8)
    case Long64Unsigned(v) => EncodeUnsigned(v, 8)
    case Float32(v) => EncodeUnsigned(v, 4)
    case Float64(v) => EncodeUnsigned(v, 8)
    case DateTime(dt) => EncodeDateTime(dt)
    case Date(dd) => EncodeDate(dd)
    case Time(t) => EncodeTime(t)
    case Structure(es) => [|es| % 256] + EncodingList(es)
    case Enum(v) => [v]
  }

  /** The elements of a structure, one after the other. */
  function EncodingList(es: seq<Data>): seq<byte>
    decreases es, 0
  {
    if |es| == 0 then [] else EncodingList(es[..|es| - 1]) + Encoding(es[|es| - 1])
  }

  /**
   * `Data::encode`: the tag, then the value.  A structure writes its count and then
   * encodes each element in turn; every other value is written by a fixed sequence of
   * pushes, which Encoding spells out.
   */
  method Encode(d: Data) returns (buffer: seq<byte>)
    ensures buffer == Encoding(d)
    decreases d
  {
    buffer := [TypeCode(TypeOf(d))];
    if d.Structure? {
      var es := d.elements;
      buffer := buffer + [|es| % 256];
      for i := 0 to |es|
        invariant buffer == [TypeCode(StructureType), |es| % 256] + EncodingList(es[..i])
      {
        var element := Encode(es[i]);
        assert es[..i + 1][..i] == es[..i];
        buffer := buffer + element;
      }
      assert es[..|es|] == es;
    } else {
      buffer := buffer + Encoding(d)[1..];
    }
  }

  /** An Integer is its tag and one two's-complement octet; an Enum its tag and the octet. */
  lemma IntegerBytes(v: i8)
    ensures Encoding(Integer(v)) == [0x0F, ToTwos(v, 1)]
    ensures Encoding(Enum(v % 256)) == [0x16, v % 256]
  {
    assert Encoding(Integer(v)) == [0x0F] + BeBytes(ToTwos(v, 1), 1);
  }

  /** A structure is its tag, its count and its elements. */
  lemma StructureBytes(es: seq<Data>)
    ensures Encoding(Structure(es)) == [0x02, |es| % 256] + EncodingList(es)
  {
    StructureHead(es);
    StructureTail(es);
    SplitAfterTwo(Encoding(Structure(es)), 0x02, |es| % 256, EncodingList(es));
  }

  lemma StructureHead(es: seq<Data>)
    ensures |Encoding(Structure(es))| >= 2
    ensures Encoding(Structure(es))[0] == 0x02 && Encoding(Structure(es))[1] == |es| % 256
  {
  }

  lemma StructureTail(es: seq<Data>)
    ensures |Encoding(Structure(es))| >= 2 && Encoding(Structure(es))[2..] == EncodingList(es)
  {
  }

  lemma SplitAfterTwo(e: seq<byte>, a: byte, b: byte, t: seq<byte>)
    requires |e| >= 2 && e[0] == a && e[1] == b && e[2..] == t
    ensures e == [a, b] + t
  {
    assert e == [e[0], e[1]] + e[2..];
  }

  /** Two elements are encoded one after the other. */
  lemma {:induction false} EncodingListPair(x: Data, y: Data)
    ensures EncodingList([x, y]) == Encoding(x) + Encoding(y)
  {
    assert [x, y][..1] == [x];
    assert EncodingList([x]) == Encoding(x) by { assert [x][..0] == []; }
  }

  /** `Data::encoded_len`: the size of each variant, summed over structure elements. */
  function EncodedLen(d: Data): nat
    decreases d, 1
  {
    match d
    case Null => 1
    case Integer(_) => 2
    case Unsigned(_) => 2
    case Long(_) => 3
    case LongUnsigned(_) => 3
    case DoubleLong(_) => 5
    case DoubleLongUnsigned(_) => 5
    case Long64(_) => 9
    case Long64Unsigned(_) => 9
    case Enum(_) => 2
    case Float32(_) => 5
    case Float64(_) => 9
    case OctetString(b) => 1 + 1 + |b|
    case Utf8String(b) => 1 + 1 + |b|
    case DateTime(_) => 1 + 12
    case Date(_) => 1 + 5
    case Time(_) => 1 + 4
    case Structure(es) => 1 + 1 + EncodedLenSum(es)
  }

  function EncodedLenSum(es: seq<Data>): nat
    decreases es, 0
  {
    if |es| == 0 then 0 else EncodedLenSum(es[..|es| - 1]) + EncodedLen(es[|es| - 1])
  }

  /** `encoded_len` is exactly the size of the encoding, for every value. */
  lemma {:induction false} EncodedLenExact(d: Data)
    ensures EncodedLen(d) == |Encoding(d)|
    decreases d, 1
  {
    match d
    case Structure(es) => EncodedLenSumExact(es);
    case _ =>
  }

  lemma {:induction false} EncodedLenSumExact(es: seq<Data>)
    ensures EncodedLenSum(es) == |EncodingList(es)|
    decreases es, 0
  {
    if |es| > 0 {
      EncodedLenSumExact(es[..|es| - 1]);
      EncodedLenExact(es[|es| - 1]);
    }
  }

  // ---------------------------------------------------------------------------
  // Parsing (lines 650-730)
  // ---------------------------------------------------------------------------

  /**
   * What `String::from_utf8` accepts: well-formed UTF-8 (the byte-sequence table of
   * section 4 of RFC 3629, which excludes overlong forms and surrogates).
   */
  predicate ValidUtf8(s: seq<byte>)
    decreases |s|
  {
    if |s| == 0 then true
    else if s[0] <= 0x7F then ValidUtf8(s[1..])
    else if 0xC2 <= s[0] <= 0xDF then
      |s| >= 2 && Tail(s[1]) && ValidUtf8(s[2..])
    else if 0xE0 <= s[0] <= 0xEF then
      |s| >= 3 && Tail(s[2])
      && (if s[0] == 0xE0 then 0xA0 <= s[1] <= 0xBF
          else if s[0] == 0xED then 0x80 <= s[1] <= 0x9F
          else Tail(s[1]))
      && ValidUtf8(s[3..])
    else if 0xF0 <= s[0] <= 0xF4 then
      |s| >= 4 && Tail(s[2]) && Tail(s[3])
      && (if s[0] == 0xF0 then 0x90 <= s[1] <= 0xBF
          else if s[0] == 0xF4 then 0x80 <= s[1] <= 0x8F
          else Tail(s[1]))
      && ValidUtf8(s[4..])
    else false
  }

  predicate Tail(b: byte) { 0x80 <= b <= 0xBF }

  /** `length_count(u8, u8)`: a count octet, then that many octets. */
  function ParseCounted(s: seq<byte>): (r: Option<(seq<byte>, seq<byte>)>)
    ensures r.Some? ==> |s| >= 1 && |r.value.0| == s[0] && r.value.0 + r.value.1 == s[1..]
    ensures r.Some? <==> |s| >= 1 && |s| >= 1 + s[0] as int
  {
    if |s| < 1 || |s| < 1 + s[0] as int then None
    else Some((s[1..1 + s[0]], s[1 + s[0]..]))
  }

  /**
   * `Data::parse`.  An unknown tag fails, and so do the known tags no branch decodes
   * (Array, Bool, BitString, VisibleString, Bcd, CompactArray), where the source reaches
   * `unimplemented!`.
   */
  function Parse(s: seq<byte>): (r: Option<(Data, seq<byte>)>)
    ensures r.Some? ==> |r.value.1| < |s|
    decreases |s|, 2
  {
    if |s| == 0 then None
    else
      match DataTypeFromByte(s[0])
      case Err(_) => None
      case Ok(t) => if t == StructureType then ParseStructure(s[1..]) else ParseScalar(t, s[1..])
  }

  /** `length_count(u8, Data::parse)`: a count octet, then that many values. */
  function ParseStructure(input: seq<byte>): (r: Option<(Data, seq<byte>)>)
    ensures r.Some? ==> |r.value.1| < |input| && r.value.0.Structure?
    decreases |input|, 1
  {
    if |input| < 1 then None
    else
      match ParseElements(input[1..], input[0])
      case None => None
      case Some((es, rest)) => Some((Structure(es), rest))
  }

  /** n values in a row. */
  function ParseElements(s: seq<byte>, n: nat): (r: Option<(seq<Data>, seq<byte>)>)
    ensures r.Some? ==> |r.value.0| == n && |r.value.1| <= |s|
    decreases |s|, 3, n
  {
    if n == 0 then Some(([], s))
    else
      match Parse(s)
      case None => None
      case Some((d, rest)) =>
        match ParseElements(rest, n - 1)
        case None => None
        case Some((ds, rest2)) => Some(([d] + ds, rest2))
  }

  /** The integer and floating-point types: big-endian values of 1, 2, 4 or 8 octets. */
  predicate IsNumberType(t: DataType) {
    t in {IntegerType, LongType, LongUnsignedType, DoubleLongType, DoubleLongUnsignedType,
          Long64Type, Long64UnsignedType, Float32Type, Float64Type}
  }

  /** The branches of `Data::parse` for every type but Structure. */
  function ParseScalar(t: DataType, input: seq<byte>): (r: Option<(Data, seq<byte>)>)
    requires t != StructureType
    ensures r.Some? ==> |r.value.1| <= |input| && TypeOf(r.value.0) == t
  {
    if IsNumberType(t) then ParseNumber(t, input)
    else
      match t
      case DateTimeType =>
        (match ParseDateTime(input) case None => None case Some((dt, rest)) => Some((DateTime(dt), rest)))
      case DateType =>
        (match ParseDate(input) case None => None case Some((dd, rest)) => Some((Date(dd), rest)))
      case TimeType =>
        (match ParseTime(input) case None => None case Some((tt, rest)) => Some((Time(tt), rest)))
      case NullType => Some((Null, input))
      case OctetStringType =>
        (match ParseCounted(input) case None => None case Some((b, rest)) => Some((OctetString(b), rest)))
      case EnumType =>
        if |input| < 1 then None else Some((Enum(input[0]), input[1..]))
      case UnsignedType =>
        if |input| < 1 then None else Some((Unsigned(input[0]), input[1..]))
      case Utf8StringType =>
        (match ParseCounted(input)
         case None => None
         case Some((b, rest)) => if ValidUtf8(b) then Some((Utf8String(b), rest)) else None)
      case _ => None
  }

  function ParseNumber(t: DataType, input: seq<byte>): (r: Option<(Data, seq<byte>)>)
    requires IsNumberType(t)
    ensures r.Some? ==> |r.value.1| <= |input| && TypeOf(r.value.0) == t
  {
    match t
    case Float32Type =>
      (match TakeUnsigned(input, 4) case None => None case Some((v, rest)) => Some((Float32(v), rest)))
    case Float64Type =>
      (match TakeUnsigned(input, 8) case None => None case Some((v, rest)) => Some((Float64(v), rest)))
    case IntegerType =>
      (match TakeSigned(input, 1) case None => None case Some((v, rest)) => Some((Integer(v), rest)))
    case LongType =>
      (match TakeSigned(input, 2) case None => None case Some((v, rest)) => Some((Long(v), rest)))
    case DoubleLongType =>
      (match TakeSigned(input, 4) case None => None case Some((v, rest)) => Some((DoubleLong(v), rest)))
    case Long64Type =>
      (match TakeSigned(input, 8) case None => None case Some((v, rest)) => Some((Long64(v), rest)))
    case LongUnsignedType =>
      (match TakeUnsigned(input, 2) case None => None case Some((v, rest)) => Some((LongUnsigned(v), rest)))
    case DoubleLongUnsignedType =>
      (match TakeUnsigned(input, 4) case None => None case Some((v, rest)) => Some((DoubleLongUnsigned(v), rest)))
    case Long64UnsignedType =>
      (match TakeUnsigned(input, 8) case None => None case Some((v, rest)) => Some((Long64Unsigned(v), rest)))
  }

  lemma ParseUnknownTag(s: seq<byte>)
    requires |s| > 0 && !KnownTypeCode(s[0])
    ensures Parse(s) == None
  {
    DataTypeFromByteExact(s[0]);
  }

  /** What the codec can carry: counts that fit one octet, valid UTF-8, valid times, recursively. */
  predicate WellFormed(d: Data)
    decreases d
  {
    match d
    case OctetString(b) => |b| <= 255
    case Utf8String(b) => |b| <= 255 && ValidUtf8(b)
    case DateTime(dt) => ValidDateTime(dt)
    case Time(t) => ValidTime(t)
    case Structure(es) => |es| <= 255 && forall i :: 0 <= i < |es| ==> WellFormed(es[i])
    case _ => true
  }

  /** EncodingList, written from the front. */
  lemma {:induction false} EncodingListCons(es: seq<Data>)
    requires |es| > 0
    ensures EncodingList(es) == Encoding(es[0]) + EncodingList(es[1..])
    decreases |es|
  {
    if |es| > 1 {
      var init := es[..|es| - 1];
      EncodingListCons(init);
      assert init[1..] == es[1..][..|es[1..]| - 1];
      assert init[0] == es[0];
      assert es[1..][|es[1..]| - 1] == es[|es| - 1];
    } else {
      assert es[..0] == [];
      assert es[1..] == [];
    }
  }

  /** `Data::parse` inverts `Data::encode` on every well-formed value, whatever follows it. */
  lemma {:induction false} ParseEncoding(d: Data, rest: seq<byte>)
    requires WellFormed(d)
    ensures Parse(Encoding(d) + rest) == Some((d, rest))
    decreases d, 1
  {
    if d.Structure? {
      StructureEncoding(d, rest);
    } else {
      ScalarEncoding(d, rest);
      ParseOfScalar(d, rest);
    }
  }

  lemma {:induction false} StructureEncoding(d: Data, rest: seq<byte>)
    requires d.Structure? && WellFormed(d)
    ensures Parse(Encoding(d) + rest) == Some((d, rest))
    decreases d, 0
  {
    var es := d.elements;
    var s := Encoding(d) + rest;
    assert s == [0x02] + ([|es|] + (EncodingList(es) + rest));
    ParseElementsEncoding(es, rest);
    assert s[1..][1..] == EncodingList(es) + rest;
  }

  /** Below the tag, `Data::parse` hands a scalar's payload to ParseScalar. */
  lemma {:induction false} ParseOfScalar(d: Data, rest: seq<byte>)
    requires !d.Structure?
    ensures Parse(Encoding(d) + rest) == ParseScalar(TypeOf(d), Encoding(d)[1..] + rest)
  {
    DataTypeRoundTrip(TypeOf(d));
    var s := Encoding(d) + rest;
    assert s[1..] == Encoding(d)[1..] + rest;
  }

  lemma {:induction false} ParseElementsEncoding(es: seq<Data>, rest: seq<byte>)
    requires forall i :: 0 <= i < |es| ==> WellFormed(es[i])
    ensures ParseElements(EncodingList(es) + rest, |es|) == Some((es, rest))
    decreases es, 0
  {
    if |es| > 0 {
      EncodingListCons(es);
      var tail := EncodingList(es[1..]) + rest;
      assert EncodingList(es) + rest == Encoding(es[0]) + tail;
      ParseEncoding(es[0], tail);
      ParseElementsEncoding(es[1..], rest);
      ParseElementsStep(Encoding(es[0]) + tail, |es|);
      assert [es[0]] + es[1..] == es;
    } else {
      assert EncodingList(es) + rest == rest;
    }
  }

  /** One value, then the other n - 1. */
  lemma ParseElementsStep(s: seq<byte>, n: nat)
    requires n > 0
    ensures ParseElements(s, n) ==
      match Parse(s)
      case None => None
      case Some((d, rest)) =>
        match ParseElements(rest, n - 1)
        case None => None
        case Some((ds, rest2)) => Some(([d] + ds, rest2))
  {
  }

  lemma {:induction false} ScalarEncoding(d: Data, rest: seq<byte>)
    requires WellFormed(d) && !d.Structure?
    ensures ParseScalar(TypeOf(d), Encoding(d)[1..] + rest) == Some((d, rest))
  {
    if d.OctetString? || d.Utf8String? {
      StringEncoding(d, rest);
    } else if d.DateTime? || d.Date? || d.Time? {
      ClockEncoding(d, rest);
    } else if d.Null? {
      assert Encoding(d)[1..] + rest == rest;
    } else if d.Unsigned? || d.Enum? {
      assert Encoding(d)[1..] + rest == [Encoding(d)[1]] + rest;
    } else {
      IntegerEncoding(d, rest);
    }
  }

  lemma {:induction false} IntegerEncoding(d: Data, rest: seq<byte>)
    requires d.Integer? || d.Long? || d.LongUnsigned? || d.DoubleLong? || d.DoubleLongUnsigned?
      || d.Long64? || d.Long64Unsigned? || d.Float32? || d.Float64?
    ensures ParseScalar(TypeOf(d), Encoding(d)[1..] + rest) == Some((d, rest))
  {
    if d.Integer? { IntegerRoundTrip(d, rest); }
    else if d.Long? { LongRoundTrip(d, rest); }
    else if d.LongUnsigned? { LongUnsignedRoundTrip(d, rest); }
    else if d.DoubleLong? { DoubleLongRoundTrip(d, rest); }
    else if d.DoubleLongUnsigned? { DoubleLongUnsignedRoundTrip(d, rest); }
    else if d.Long64? { Long64RoundTrip(d, rest); }
    else if d.Long64Unsigned? { Long64UnsignedRoundTrip(d, rest); }
    else if d.Float32? { Float32RoundTrip(d, rest); }
    else { Float64RoundTrip(d, rest); }
  }

  lemma {:induction false} IntegerRoundTrip(d: Data, rest: seq<byte>)
    requires d.Integer?
    ensures ParseScalar(TypeOf(d), Encoding(d)[1..] + rest) == Some((d, rest))
  {
    TakeSignedEncoded(d.i8, 1, rest);
  }

  lemma {:induction false} LongRoundTrip(d: Data, rest: seq<byte>)
    requires d.Long?
    ensures ParseScalar(TypeOf(d), Encoding(d)[1..] + rest) == Some((d, rest))
  {
    TakeSignedEncoded(d.i16, 2, rest);
  }

  lemma {:induction false} LongUnsignedRoundTrip(d: Data, rest: seq<byte>)
    requires d.LongUnsigned?
    ensures ParseScalar(TypeOf(d), Encoding(d)[1..] + rest) == Some((d, rest))
  {
    TakeUnsignedEncoded(d.u16, 2, rest);
  }

  lemma {:induction false} DoubleLongRoundTrip(d: Data, rest: seq<byte>)
    requires d.DoubleLong?
    ensures ParseScalar(TypeOf(d), Encoding(d)[1..] + rest) == Some((d, rest))
  {
    TakeSignedEncoded(d.i32, 4, rest);
  }

  lemma {:induction false} DoubleLongUnsignedRoundTrip(d: Data, rest: seq<byte>)
    requires d.DoubleLongUnsigned?
    ensures ParseScalar(TypeOf(d), Encoding(d)[1..] + rest) == Some((d, rest))
  {
    TakeUnsignedEncoded(d.u32, 4, rest);
  }

  lemma {:induction false} Long64RoundTrip(d: Data, rest: seq<byte>)
    requires d.Long64?
    ensures ParseScalar(TypeOf(d), Encoding(d)[1..] + rest) == Some((d, rest))
  {
    TakeSignedEncoded(d.i64, 8, rest);
  }

  lemma {:induction false} Long64UnsignedRoundTrip(d: Data, rest: seq<byte>)
    requires d.Long64Unsigned?
    ensures ParseScalar(TypeOf(d), Encoding(d)[1..] + rest) == Some((d, rest))
  {
    TakeUnsignedEncoded(d.u64, 8, rest);
  }

  lemma {:induction false} Float32RoundTrip(d: Data, rest: seq<byte>)
    requires d.Float32?
    ensures ParseScalar(TypeOf(d), Encoding(d)[1..] + rest) == Some((d, rest))
  {
    TakeUnsignedEncoded(d.bits32, 4, rest);
  }

  lemma {:induction false} Float64RoundTrip(d: Data, rest: seq<byte>)
    requires d.Float64?
    ensures ParseScalar(TypeOf(d), Encoding(d)[1..] + rest) == Some((d, rest))
  {
    TakeUnsignedEncoded(d.bits64, 8, rest);
  }

  lemma {:induction false} StringEncoding(d: Data, rest: seq<byte>)
    requires (d.OctetString? || d.Utf8String?) && WellFormed(d)
    ensures ParseScalar(TypeOf(d), Encoding(d)[1..] + rest) == Some((d, rest))
  {
    var b := if d.OctetString? then d.bytes else d.utf8;
    var body := Encoding(d)[1..] + rest;
    assert body == [|b|] + b + rest;
    assert body[1..1 + |b|] == b;
    assert body[1 + |b|..] == rest;
  }

  lemma {:induction false} ClockEncoding(d: Data, rest: seq<byte>)
    requires (d.DateTime? || d.Date? || d.Time?) && WellFormed(d)
    ensures ParseScalar(TypeOf(d), Encoding(d)[1..] + rest) == Some((d, rest))
  {
    if d.DateTime? { DateTimeValueRoundTrip(d, rest); }
    else if d.Date? { DateValueRoundTrip(d, rest); }
    else { TimeValueRoundTrip(d, rest); }
  }

  lemma {:induction false} DateTimeValueRoundTrip(d: Data, rest: seq<byte>)
    requires d.DateTime? && WellFormed(d)
    ensures ParseScalar(TypeOf(d), Encoding(d)[1..] + rest) == Some((d, rest))
  {
    DateTimeRoundTrip(d.dateTime, rest);
  }

  lemma {:induction false} DateValueRoundTrip(d: Data, rest: seq<byte>)
    requires d.Date? && WellFormed(d)
    ensures ParseScalar(TypeOf(d), Encoding(d)[1..] + rest) == Some((d, rest))
  {
    DateRoundTrip(d.date, rest);
  }

  lemma {:induction false} TimeValueRoundTrip(d: Data, rest: seq<byte>)
    requires d.Time? && WellFormed(d)
    ensures ParseScalar(TypeOf(d), Encoding(d)[1..] + rest) == Some((d, rest))
  {
    TimeRoundTrip(d.time, rest);
  }

  // ---------------------------------------------------------------------------
  // Parsing loses nothing: whatever parses is the encoding of a well-formed value
  // ---------------------------------------------------------------------------

  lemma {:induction false} ParseDateSound(s: seq<byte>)
    requires ParseDate(s).Some?
    ensures EncodeDate(ParseDate(s).value.0) + ParseDate(s).value.1 == s
  {
    var d := ParseDate(s).value.0;
    TakeUnsignedSound(s, 2);
    assert EncodeUnsigned(d.year, 2) == s[..2];
    assert s == s[..2] + [s[2], s[3], s[4]] + s[5..];
  }

  lemma {:induction false} ParseTimeSound(s: seq<byte>)
    requires ParseTime(s).Some?
    ensures ValidTime(ParseTime(s).value.0)
    ensures EncodeTime(ParseTime(s).value.0) + ParseTime(s).value.1 == s
  {
    assert s == [s[0], s[1], s[2], s[3]] + s[4..];
  }

  lemma {:induction false} ParseDateTimeSound(s: seq<byte>)
    requires ParseDateTime(s).Some?
    ensures ValidDateTime(ParseDateTime(s).value.0)
    ensures EncodeDateTime(ParseDateTime(s).value.0) + ParseDateTime(s).value.1 == s
  {
    var (dt, rest) := ParseDateTime(s).value;
    var (date, s1) := ParseDate(s).value;
    var (time, s2) := ParseTime(s1).value;
    var (offset, s3) := TakeSigned(s2, 2).value;
    ParseDateSound(s);
    ParseTimeSound(s1);
    TakeSignedSound(s2, 2);
    DateTimeJoin(dt, s, s1, s2, s3, offset);
  }

  /** The four pieces `DateTime::parse` read, put back together. */
  lemma DateTimeJoin(dt: CosemDateTime, s: seq<byte>, s1: seq<byte>, s2: seq<byte>, s3: seq<byte>, offset: i16)
    requires |s3| >= 1
    requires EncodeDate(dt.date) + s1 == s && EncodeTime(dt.time) + s2 == s1 && EncodeSigned(offset, 2) + s3 == s2
    requires dt.offsetMinutes == (if offset == -0x8000 then None else Some(offset))
    requires dt.clockStatus == (if s3[0] == 0xFF then None else Some(ClockStatus(s3[0])))
    ensures EncodeDateTime(dt) + s3[1..] == s
  {
    assert s3 == [s3[0]] + s3[1..];
  }

  /** Whatever `Data::parse` accepts is a well-formed value followed by the rest of the input. */
  lemma {:induction false} ParseSound(s: seq<byte>)
    requires Parse(s).Some?
    ensures WellFormed(Parse(s).value.0)
    ensures Encoding(Parse(s).value.0) + Parse(s).value.1 == s
    decreases |s|, 2
  {
    var t := DataTypeFromByte(s[0]).value;
    DataTypeFromByteExact(s[0]);
    assert s == [s[0]] + s[1..];
    if t == StructureType {
      ParseStructureSound(s[1..]);
    } else {
      ScalarSound(t, s[1..]);
    }
  }

  lemma {:induction false} ParseStructureSound(input: seq<byte>)
    requires ParseStructure(input).Some?
    ensures WellFormed(ParseStructure(input).value.0)
    ensures Encoding(ParseStructure(input).value.0) + ParseStructure(input).value.1 == [TypeCode(StructureType)] + input
    decreases |input|, 1
  {
    var (es, rest) := ParseElements(input[1..], input[0]).value;
    assert ParseStructure(input) == Some((Structure(es), rest));
    ParseElementsSound(input[1..], input[0]);
    StructureJoin(es, rest, input);
  }

  /** The count octet, then the elements, put back together. */
  lemma {:induction false} StructureJoin(es: seq<Data>, rest: seq<byte>, input: seq<byte>)
    requires |input| >= 1 && |es| == input[0]
    requires (forall i :: 0 <= i < |es| ==> WellFormed(es[i])) && EncodingList(es) + rest == input[1..]
    ensures WellFormed(Structure(es)) && Encoding(Structure(es)) + rest == [TypeCode(StructureType)] + input
  {
    assert input == [input[0]] + input[1..];
  }

  lemma {:induction false} ParseElementsSound(s: seq<byte>, n: nat)
    requires ParseElements(s, n).Some?
    ensures var (es, rest) := ParseElements(s, n).value;
      (forall i :: 0 <= i < |es| ==> WellFormed(es[i])) && EncodingList(es) + rest == s
    decreases |s|, 3, n
  {
    if n > 0 {
      ParseElementsStep(s, n);
      var (d, r1) := Parse(s).value;
      var (ds, rest) := ParseElements(r1, n - 1).value;
      ParseSound(s);
      ParseElementsSound(r1, n - 1);
      ElementsJoin(d, ds, r1, rest, s);
    } else {
      assert EncodingList([]) == [];
    }
  }

  /** A value in front of n - 1 others, put back together. */
  lemma {:induction false} ElementsJoin(d: Data, ds: seq<Data>, r1: seq<byte>, rest: seq<byte>, s: seq<byte>)
    requires WellFormed(d) && Encoding(d) + r1 == s
    requires (forall i :: 0 <= i < |ds| ==> WellFormed(ds[i])) && EncodingList(ds) + rest == r1
    ensures var es := [d] + ds; (forall i :: 0 <= i < |es| ==> WellFormed(es[i])) && EncodingList(es) + rest == s
  {
    var es := [d] + ds;
    EncodingListCons(es);
    assert es[0] == d && es[1..] == ds;
  }

  lemma {:induction false} ScalarSound(t: DataType, input: seq<byte>)
    requires t != StructureType && ParseScalar(t, input).Some?
    ensures WellFormed(ParseScalar(t, input).value.0)
    ensures Encoding(ParseScalar(t, input).value.0) + ParseScalar(t, input).value.1 == [TypeCode(t)] + input
  {
    if t == OctetStringType || t == Utf8StringType {
      StringSound(t, input);
    } else if t == DateTimeType || t == DateType || t == TimeType {
      ClockSound(t, input);
    } else if t == NullType || t == UnsignedType || t == EnumType {
      OctetSound(t, input);
    } else {
      IntegerSound(t, input);
    }
  }

  lemma {:induction false} StringSound(t: DataType, input: seq<byte>)
    requires (t == OctetStringType || t == Utf8StringType) && ParseScalar(t, input).Some?
    ensures WellFormed(ParseScalar(t, input).value.0)
    ensures Encoding(ParseScalar(t, input).value.0) + ParseScalar(t, input).value.1 == [TypeCode(t)] + input
  {
    assert input == [input[0]] + input[1..1 + input[0] as int] + input[1 + input[0] as int..];
  }

  lemma {:induction false} OctetSound(t: DataType, input: seq<byte>)
    requires (t == NullType || t == UnsignedType || t == EnumType) && ParseScalar(t, input).Some?
    ensures Encoding(ParseScalar(t, input).value.0) + ParseScalar(t, input).value.1 == [TypeCode(t)] + input
  {
    if t != NullType {
      assert input == [input[0]] + input[1..];
    }
  }

  lemma {:induction false} ClockSound(t: DataType, input: seq<byte>)
    requires t == DateTimeType || t == DateType || t == TimeType
    requires ParseScalar(t, input).Some?
    ensures WellFormed(ParseScalar(t, input).value.0)
    ensures Encoding(ParseScalar(t, input).value.0) + ParseScalar(t, input).value.1 == [TypeCode(t)] + input
  {
    if t == DateTimeType {
      DateTimeSound(t, input);
    } else if t == DateType {
      DateSound(t, input);
    } else {
      TimeSound(t, input);
    }
  }

  lemma {:induction false} DateTimeSound(t: DataType, input: seq<byte>)
    requires t == DateTimeType && ParseScalar(t, input).Some?
    ensures WellFormed(ParseScalar(t, input).value.0)
    ensures Encoding(ParseScalar(t, input).value.0) + ParseScalar(t, input).value.1 == [TypeCode(t)] + input
  {
    ParseDateTimeSound(input);
    var (dt, rest) := ParseDateTime(input).value;
    assert ParseScalar(t, input) == Some((DateTime(dt), rest));
    assert Encoding(DateTime(dt)) == [TypeCode(t)] + EncodeDateTime(dt);
  }

  lemma {:induction false} DateSound(t: DataType, input: seq<byte>)
    requires t == DateType && ParseScalar(t, input).Some?
    ensures WellFormed(ParseScalar(t, input).value.0)
    ensures Encoding(ParseScalar(t, input).value.0) + ParseScalar(t, input).value.1 == [TypeCode(t)] + input
  {
    ParseDateSound(input);
    var (dd, rest) := ParseDate(input).value;
    assert ParseScalar(t, input) == Some((Date(dd), rest));
    assert Encoding(Date(dd)) == [TypeCode(t)] + EncodeDate(dd);
  }

  lemma {:induction false} TimeSound(t: DataType, input: seq<byte>)
    requires t == TimeType && ParseScalar(t, input).Some?
    ensures WellFormed(ParseScalar(t, input).value.0)
    ensures Encoding(ParseScalar(t, input).value.0) + ParseScalar(t, input).value.1 == [TypeCode(t)] + input
  {
    ParseTimeSound(input);
    var (tt, rest) := ParseTime(input).value;
    assert ParseScalar(t, input) == Some((Time(tt), rest));
    assert Encoding(Time(tt)) == [TypeCode(t)] + EncodeTime(tt);
  }

  lemma {:induction false} IntegerSound(t: DataType, input: seq<byte>)
    requires IsNumberType(t) && ParseScalar(t, input).Some?
    ensures Encoding(ParseScalar(t, input).value.0) + ParseScalar(t, input).value.1 == [TypeCode(t)] + input
  {
    match t
    case IntegerType => TakeSignedSound(input, 1);
    case LongType => TakeSignedSound(input, 2);
    case DoubleLongType => TakeSignedSound(input, 4);
    case Long64Type => TakeSignedSound(input, 8);
    case LongUnsignedType => TakeUnsignedSound(input, 2);
    case DoubleLongUnsignedType => TakeUnsignedSound(input, 4);
    case Long64UnsignedType => TakeUnsignedSound(input, 8);
    case Float32Type => TakeUnsignedSound(input, 4);
    case Float64Type => TakeUnsignedSound(input, 8);
  }
}
