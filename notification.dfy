/**
 * src/data_notification.rs: the DATA-NOTIFICATION APDU. Its long-invoke-id-and-priority
 * word packs four flags into bits 31 to 28 and a 24-bit invoke id into the low bits; the
 * APDU is that word, a length-prefixed date-time and the notification body.
 */
module DataNotification {
  import opened Bytes
  import opened Wire
  import AxdrData

  datatype Priority = Normal | High
  datatype ServiceClass = Confirmed | Unconfirmed
  datatype ProcessingOption = ContinueOnError | BreakOnError

  const PriorityBit: bv32 := 0x8000_0000
  const ServiceClassBit: bv32 := 0x4000_0000
  const ProcessingOptionBit: bv32 := 0x2000_0000
  const SelfDescriptiveBit: bv32 := 0x1000_0000
  const InvokeIdMask: bv32 := 0x00FF_FFFF

  /** `(w & m) != 0`. */
  predicate HasBit(w: bv32, m: bv32) { w & m != 0 }

  /** `LongInvokeIdAndPriority::priority`: bit 31. */
  function PriorityOf(w: bv32): Priority {
    if HasBit(w, PriorityBit) then High else Normal
  }

  /** `service_class`: bit 30 set means confirmed. */
  function ServiceClassOf(w: bv32): ServiceClass {
    if HasBit(w, ServiceClassBit) then Confirmed else Unconfirmed
  }

  /** `processing_option`: bit 29. */
  function ProcessingOptionOf(w: bv32): ProcessingOption {
    if HasBit(w, ProcessingOptionBit) then BreakOnError else ContinueOnError
  }

  /** `self_descriptive`: bit 28. */
  predicate SelfDescriptive(w: bv32) {
    HasBit(w, SelfDescriptiveBit)
  }

  /** `invoke_id`: the low 24 bits. */
  function InvokeIdOf(w: bv32): (id: bv32)
    ensures id <= InvokeIdMask
  {
    w & InvokeIdMask
  }

  /** A flag bit, or nothing. */
  function BitIf(on: bool, m: bv32): bv32 { if on then m else 0 }

  /** The word built from its parts: the reference the accessors are checked against. */
  function Compose(p: Priority, c: ServiceClass, o: ProcessingOption, selfDescriptive: bool, id: bv32): bv32 {
    BitIf(p == High, PriorityBit) | BitIf(c == Confirmed, ServiceClassBit)
    | BitIf(o == BreakOnError, ProcessingOptionBit) | BitIf(selfDescriptive, SelfDescriptiveBit) | id
  }

  /** Each part of a composed word sits in its own bits. */
  lemma Parts(a: bool, b: bool, c: bool, d: bool, id: bv32)
    requires id <= InvokeIdMask
    ensures var w := BitIf(a, PriorityBit) | BitIf(b, ServiceClassBit) | BitIf(c, ProcessingOptionBit) | BitIf(d, SelfDescriptiveBit) | id;
      HasBit(w, PriorityBit) == a && HasBit(w, ServiceClassBit) == b && HasBit(w, ProcessingOptionBit) == c
      && HasBit(w, SelfDescriptiveBit) == d && w & InvokeIdMask == id
  {
  }

  lemma PriorityOfCompose(p: Priority, c: ServiceClass, o: ProcessingOption, selfDescriptive: bool, id: bv32)
    requires id <= InvokeIdMask
    ensures PriorityOf(Compose(p, c, o, selfDescriptive, id)) == p
  {
    Parts(p == High, c == Confirmed, o == BreakOnError, selfDescriptive, id);
  }

  lemma ServiceClassOfCompose(p: Priority, c: ServiceClass, o: ProcessingOption, selfDescriptive: bool, id: bv32)
    requires id <= InvokeIdMask
    ensures ServiceClassOf(Compose(p, c, o, selfDescriptive, id)) == c
  {
    Parts(p == High, c == Confirmed, o == BreakOnError, selfDescriptive, id);
  }

  lemma ProcessingOptionOfCompose(p: Priority, c: ServiceClass, o: ProcessingOption, selfDescriptive: bool, id: bv32)
    requires id <= InvokeIdMask
    ensures ProcessingOptionOf(Compose(p, c, o, selfDescriptive, id)) == o
  {
    Parts(p == High, c == Confirmed, o == BreakOnError, selfDescriptive, id);
  }

  lemma SelfDescriptiveOfCompose(p: Priority, c: ServiceClass, o: ProcessingOption, selfDescriptive: bool, id: bv32)
    requires id <= InvokeIdMask
    ensures SelfDescriptive(Compose(p, c, o, selfDescriptive, id)) == selfDescriptive
  {
    var w := Compose(p, c, o, selfDescriptive, id);
    Parts(p == High, c == Confirmed, o == BreakOnError, selfDescriptive, id);
    assert HasBit(w, SelfDescriptiveBit) == selfDescriptive;
  }

  lemma IdOfCompose(p: Priority, c: ServiceClass, o: ProcessingOption, selfDescriptive: bool, id: bv32)
    requires id <= InvokeIdMask
    ensures InvokeIdOf(Compose(p, c, o, selfDescriptive, id)) == id
  {
    Parts(p == High, c == Confirmed, o == BreakOnError, selfDescriptive, id);
  }

  /** Every accessor reads back the part the word was composed from. */
  lemma AccessorsOfCompose(p: Priority, c: ServiceClass, o: ProcessingOption, selfDescriptive: bool, id: bv32)
    requires id <= InvokeIdMask
    ensures var w := Compose(p, c, o, selfDescriptive, id);
      PriorityOf(w) == p && ServiceClassOf(w) == c && ProcessingOptionOf(w) == o
      && SelfDescriptive(w) == selfDescriptive && InvokeIdOf(w) == id
  {
    PriorityOfCompose(p, c, o, selfDescriptive, id);
    ServiceClassOfCompose(p, c, o, selfDescriptive, id);
    ProcessingOptionOfCompose(p, c, o, selfDescriptive, id);
    SelfDescriptiveOfCompose(p, c, o, selfDescriptive, id);
    IdOfCompose(p, c, o, selfDescriptive, id);
  }

  /** Bits 24 to 27, which no accessor reads, are clear. */
  predicate ReservedClear(w: bv32) {
    w & 0x0F00_0000 == 0
  }

  lemma PriorityPart(w: bv32)
    ensures BitIf(PriorityOf(w) == High, PriorityBit) == w & PriorityBit
  {
  }

  lemma ServiceClassPart(w: bv32)
    ensures BitIf(ServiceClassOf(w) == Confirmed, ServiceClassBit) == w & ServiceClassBit
  {
  }

  lemma ProcessingOptionPart(w: bv32)
    ensures BitIf(ProcessingOptionOf(w) == BreakOnError, ProcessingOptionBit) == w & ProcessingOptionBit
  {
  }

  lemma SelfDescriptivePart(w: bv32)
    ensures BitIf(SelfDescriptive(w), SelfDescriptiveBit) == w & SelfDescriptiveBit
  {
  }

  lemma Combine(w: bv32, p: Priority, c: ServiceClass, o: ProcessingOption, d: bool)
    requires ReservedClear(w)
    requires BitIf(p == High, PriorityBit) == w & PriorityBit && BitIf(c == Confirmed, ServiceClassBit) == w & ServiceClassBit
    requires BitIf(o == BreakOnError, ProcessingOptionBit) == w & ProcessingOptionBit && BitIf(d, SelfDescriptiveBit) == w & SelfDescriptiveBit
    ensures Compose(p, c, o, d, w & InvokeIdMask) == w
  {
    SplitWord(w);
  }

  lemma SplitWord(w: bv32)
    requires ReservedClear(w)
    ensures w == (w & PriorityBit) | (w & ServiceClassBit) | (w & ProcessingOptionBit) | (w & SelfDescriptiveBit) | (w & InvokeIdMask)
  {
  }

  /** A word with the reserved bits clear is determined by what the accessors return. */
  lemma ComposeOfAccessors(w: bv32)
    requires ReservedClear(w)
    ensures Compose(PriorityOf(w), ServiceClassOf(w), ProcessingOptionOf(w), SelfDescriptive(w), InvokeIdOf(w)) == w
  {
    PriorityPart(w); ServiceClassPart(w); ProcessingOptionPart(w); SelfDescriptivePart(w);
    Combine(w, PriorityOf(w), ServiceClassOf(w), ProcessingOptionOf(w), SelfDescriptive(w));
  }

  /** The library's examples of the accessors. */
  lemma AccessorExamples()
    ensures InvokeIdOf(0x1234_5678) == 0x0034_5678 && InvokeIdOf(0xFFFF_FFFF) == 0x00FF_FFFF
    ensures PriorityOf(0x80FF_FFFF) == High && ServiceClassOf(0x40FF_FFFF) == Confirmed
    ensures PriorityOf(0x4000_0001) == Normal && InvokeIdOf(0x4000_0001) == 1
    ensures var w: bv32 := 0xF0FF_FFFF;
      PriorityOf(w) == High && ServiceClassOf(w) == Confirmed && ProcessingOptionOf(w) == BreakOnError
      && SelfDescriptive(w) && InvokeIdOf(w) == 0x00FF_FFFF
    ensures var w: bv32 := 0xC000_0001;
      PriorityOf(w) == High && ServiceClassOf(w) == Confirmed && InvokeIdOf(w) == 1
      && !SelfDescriptive(w) && ProcessingOptionOf(w) == ContinueOnError
  {
  }

  /** `LongInvokeIdAndPriority::parse`: a big-endian u32. */
  function ParseLongInvokeId(s: seq<byte>): (r: Option<(bv32, seq<byte>)>)
    ensures r.Some? <==> |s| >= 4
    ensures r.Some? ==> r.value.1 == s[4..]
  {
    match TakeU32(s)
    case None => None
    case Some((v, rest)) => Some((v as bv32, rest))
  }

  lemma LongInvokeIdRoundTrip(v: u32, rest: seq<byte>)
    ensures ParseLongInvokeId(U32Bytes(v) + rest) == Some((v as bv32, rest))
  {
    TakeU32Of(v, rest);
  }

  datatype Notification = Notification(longInvokeIdAndPriority: bv32, dateTime: AxdrData.CosemDateTime, body: AxdrData.Data)

  /**
   * `length_value(u8, DateTime::parse)`: a length octet n, then n octets that must hold a
   * date-time; whatever of the n octets the date-time does not use is dropped.
   */
  function ParseLengthPrefixedDateTime(s: seq<byte>): (r: Option<(AxdrData.CosemDateTime, seq<byte>)>)
    ensures r.Some? ==> |s| >= 1 && s[0] as int >= 12 && |s| >= 1 + s[0] as int && r.value.1 == s[1 + s[0]..]
  {
    if |s| < 1 || |s| < 1 + s[0] as int then None
    else
      match AxdrData.ParseDateTime(s[1..1 + s[0]])
      case None => None
      case Some((dt, _)) => Some((dt, s[1 + s[0]..]))
  }

  /** `DataNotification::parse`. */
  function ParseNotification(s: seq<byte>): (r: Option<(Notification, seq<byte>)>)
    ensures r.Some? ==> |s| >= 17
  {
    match ParseLongInvokeId(s)
    case None => None
    case Some((w, s1)) =>
      match ParseLengthPrefixedDateTime(s1)
      case None => None
      case Some((dt, s2)) =>
        match AxdrData.Parse(s2)
        case None => None
        case Some((body, s3)) => Some((Notification(w, dt, body), s3))
  }

  /** The octets of a notification with its date-time in the usual 12-octet field. */
  function NotificationBytes(n: Notification): (s: seq<byte>) {
    U32Bytes(n.longInvokeIdAndPriority as u32) + ([12] + (AxdrData.EncodeDateTime(n.dateTime) + AxdrData.Encoding(n.body)))
  }

  lemma {:induction false} LengthPrefixedDateTimeRoundTrip(dt: AxdrData.CosemDateTime, padding: seq<byte>, rest: seq<byte>)
    requires AxdrData.ValidDateTime(dt) && 12 + |padding| <= 255
    ensures ParseLengthPrefixedDateTime([(12 + |padding|) as byte] + (AxdrData.EncodeDateTime(dt) + padding) + rest) == Some((dt, rest))
  {
    var body := AxdrData.EncodeDateTime(dt) + padding;
    var s := [(12 + |padding|) as byte] + body + rest;
    assert s[1..1 + s[0]] == body;
    assert s[1 + s[0]..] == rest;
    AxdrData.DateTimeRoundTrip(dt, padding);
  }

  /** A notification reads back from its octets, whatever follows them. */
  lemma {:induction false} NotificationRoundTrip(n: Notification, rest: seq<byte>)
    requires AxdrData.ValidDateTime(n.dateTime) && AxdrData.WellFormed(n.body)
    ensures ParseNotification(NotificationBytes(n) + rest) == Some((n, rest))
  {
    var e := AxdrData.Encoding(n.body);
    var tail := [12] + (AxdrData.EncodeDateTime(n.dateTime) + e) + rest;
    assert NotificationBytes(n) + rest == U32Bytes(n.longInvokeIdAndPriority as u32) + tail;
    LongInvokeIdRoundTrip(n.longInvokeIdAndPriority as u32, tail);
    var none: seq<byte> := [];
    assert tail == [(12 + |none|) as byte] + (AxdrData.EncodeDateTime(n.dateTime) + none) + (e + rest);
    LengthPrefixedDateTimeRoundTrip(n.dateTime, none, e + rest);
    AxdrData.ParseEncoding(n.body, rest);
  }
}
