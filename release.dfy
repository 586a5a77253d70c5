/**
 * src/association/rlrq.rs and src/association/rlre.rs: the A-RELEASE request (APPLICATION 2,
 * 0x62) and response (APPLICATION 3, 0x63). The two files are the same code but for the
 * application tag number and the reason type, so one codec here takes the tag number as a
 * parameter. The content is an optional reason (context-specific 0, primitive, one octet) and
 * optional user information (context-specific 30, constructed, holding an OCTET STRING).
 */
module Release {
  import opened Bytes
  import opened Ber
  import opened AcseFields

  /** The application tag numbers of RLRQ and RLRE. */
  const RlrqNumber: nat := 2
  const RlreNumber: nat := 3

  /**
   * `ReleaseRequestReason` and `ReleaseResponseReason` are not part of this model; the
   * library's tests fix `Normal` as 0 and `NotFinished` as 1, the two codes kept here.
   */
  datatype ReleaseReason = Normal | NotFinished

  function ReasonCode(r: ReleaseReason): byte {
    match r
    case Normal => 0
    case NotFinished => 1
  }

  /** `from_u8`: an unknown code is no reason at all. */
  function ReasonFromCode(b: byte): (r: Option<ReleaseReason>)
    ensures r.Some? <==> b <= 1
    ensures r.Some? ==> ReasonCode(r.value) == b
  {
    if b == 0 then Some(Normal) else if b == 1 then Some(NotFinished) else None
  }

  lemma ReasonRoundTrip(r: ReleaseReason)
    ensures ReasonFromCode(ReasonCode(r)) == Some(r)
  {
  }

  /** `RlrqApdu` / `RlreApdu`. */
  datatype ReleaseApdu = ReleaseApdu(reason: Option<ReleaseReason>, userInformation: Option<seq<byte>>)

  /** `new()`: a normal release without user information. */
  function New(): (a: ReleaseApdu)
    ensures a.reason == Some(Normal) && a.userInformation.None?
  {
    ReleaseApdu(Some(Normal), None)
  }

  /** `with_reason`. */
  function WithReason(r: ReleaseReason): (a: ReleaseApdu)
    ensures a.reason == Some(r) && a.userInformation.None?
  {
    ReleaseApdu(Some(r), None)
  }

  /** `with_user_info`: a normal release carrying the given octets. */
  function WithUserInfo(ui: seq<byte>): (a: ReleaseApdu)
    ensures a.reason == Some(Normal) && a.userInformation == Some(ui)
  {
    ReleaseApdu(Some(Normal), Some(ui))
  }

  /** The reason field: `80 01 code`. */
  function ReasonField(o: Option<ReleaseReason>): (fs: seq<FitField>)
    ensures |fs| <= 1
  {
    if o.Some? then [Field(Primitive, 0, [ReasonCode(o.value)])] else []
  }

  /** The user-information field: `BE len 04 len octets`. */
  function UserField(o: Option<seq<byte>>): (fs: seq<FitField>)
    requires o.Some? ==> OctetsFit(o.value)
    ensures |fs| <= 1
  {
    if o.Some? then [Field(Constructed, 30, OctetsContent(o.value))] else []
  }

  /** The size of the content `encode` builds. */
  function ContentSize(a: ReleaseApdu): nat {
    (if a.reason.Some? then 3 else 0)
    + (if a.userInformation.Some? then TlvSize(TlvSize(|a.userInformation.value|)) else 0)
  }

  /** The APDUs `encode` handles without panicking in `encode_length`: every TLV fits a two-octet length. */
  predicate Encodable(a: ReleaseApdu) {
    (a.userInformation.Some? ==> OctetsFit(a.userInformation.value)) && ContentSize(a) <= 0xFFFF
  }

  function FieldList(a: ReleaseApdu): seq<FitField>
    requires a.userInformation.Some? ==> OctetsFit(a.userInformation.value)
  {
    ReasonField(a.reason) + UserField(a.userInformation)
  }

  lemma ContentSizeOf(a: ReleaseApdu)
    requires a.userInformation.Some? ==> OctetsFit(a.userInformation.value)
    ensures |FieldsBytes(FieldList(a))| == ContentSize(a)
  {
    FieldsBytesAppend(ReasonField(a.reason), UserField(a.userInformation));
    if a.userInformation.Some? {
      var f: FitField := Field(Constructed, 30, OctetsContent(a.userInformation.value));
      assert UserField(a.userInformation) == [] + [f];
      FieldsBytesSnoc([], f);
      TlvSizeOf(EncodeTag(ContextSpecific, Constructed, 30), f.content);
    }
    if a.reason.Some? {
      var f: FitField := Field(Primitive, 0, [ReasonCode(a.reason.value)]);
      assert ReasonField(a.reason) == [] + [f];
      FieldsBytesSnoc([], f);
    }
  }

  /** The octets of the APDU with application tag number `n`. */
  function ReleaseBytes(n: nat, a: ReleaseApdu): seq<byte>
    requires n <= 30 && Encodable(a)
  {
    ContentSizeOf(a);
    EncodeApplication(n, Constructed, FieldsBytes(FieldList(a)))
  }

  /** `encode`: the present fields appended to `content`, then the APPLICATION envelope. */
  method Encode(n: nat, a: ReleaseApdu) returns (bytes: seq<byte>)
    requires n <= 30 && Encodable(a)
    ensures bytes == ReleaseBytes(n, a)
  {
    var content := AppendOptional([], ReasonField(a.reason));
    var user: seq<FitField> := [];
    if a.userInformation.Some? {
      user := [Field(Constructed, 30, OctetsContent(a.userInformation.value))];
    }
    content := AppendOptional(content, user);
    FieldsBytesAppend(ReasonField(a.reason), UserField(a.userInformation));
    ContentSizeOf(a);
    bytes := EncodeApplication(n, Constructed, content);
  }

  /** The parse loop's locals before the first field: neither field seen. */
  const Initial := ReleaseApdu(None, None)

  /**
   * The loop body: a reason must have exactly one content octet, user information must hold
   * an OCTET STRING, and every other field, of any class, is skipped.
   */
  function Step(acc: ReleaseApdu, tag: Tag, body: seq<byte>): Option<ReleaseApdu> {
    if tag.tagClass == ContextSpecific && tag.number == 0 then
      if |body| != 1 then None else Some(acc.(reason := ReasonFromCode(body[0])))
    else if tag.tagClass == ContextSpecific && tag.number == 30 then
      match ReadOctets(body)
      case None => None
      case Some(ui) => Some(acc.(userInformation := Some(ui)))
    else Some(acc)
  }

  /** `parse`: an APPLICATION `n` identifier of either form, a length, and the fields' loop. */
  function ParseSpec(s: seq<byte>, n: nat): Option<(ReleaseApdu, seq<byte>)> {
    match ParseApplication(s, n, false)
    case None => None
    case Some((content, rest)) =>
      match FoldFields(Step, content, Initial)
      case None => None
      case Some(a) => Some((a, rest))
  }

  method Parse(input: seq<byte>, n: nat) returns (r: Option<(ReleaseApdu, seq<byte>)>)
    ensures r == ParseSpec(input, n)
  {
    var envelope := ParseApplication(input, n, false);
    if envelope.None? {
      return None;
    }
    var (content, remaining) := envelope.value;
    var acc := Initial;
    var rest := content;
    while |rest| > 0
      invariant FoldFields(Step, rest, acc) == FoldFields(Step, content, Initial)
      decreases |rest|
    {
      var field := ParseTlv(rest);
      if field.None? {
        return None;
      }
      var (tag, body, next) := field.value;
      var stepped := Step(acc, tag, body);
      if stepped.None? {
        return None;
      }
      acc, rest := stepped.value, next;
    }
    return Some((acc, remaining));
  }

  lemma ReasonSteps(acc: ReleaseApdu, o: Option<ReleaseReason>)
    requires acc.reason.None?
    ensures StepsTo(Step, ReasonField(o), acc, acc.(reason := o))
  {
    if o.Some? {
      ReasonRoundTrip(o.value);
    }
  }

  lemma UserSteps(acc: ReleaseApdu, o: Option<seq<byte>>)
    requires o.Some? ==> OctetsFit(o.value)
    requires acc.userInformation.None?
    ensures StepsTo(Step, UserField(o), acc, acc.(userInformation := o))
  {
    if o.Some? {
      OctetsRoundTrip(o.value);
    }
  }

  lemma ApplyFieldList(a: ReleaseApdu)
    requires a.userInformation.Some? ==> OctetsFit(a.userInformation.value)
    ensures ApplyAll(Step, FieldList(a), Initial) == Some(a)
  {
    var s1 := Initial.(reason := a.reason);
    ReasonSteps(Initial, a.reason);
    UserSteps(s1, a.userInformation);
    ApplyAllTwo(Step, ReasonField(a.reason), UserField(a.userInformation), Initial, s1, a);
  }

  /** Parsing an encoding gives the APDU back, the octets after it left over. */
  lemma RoundTrip(n: nat, a: ReleaseApdu, rest: seq<byte>)
    requires n <= 30 && Encodable(a)
    ensures ParseSpec(ReleaseBytes(n, a) + rest, n) == Some((a, rest))
  {
    ContentSizeOf(a);
    ApplicationRoundTrip(n, FieldsBytes(FieldList(a)), rest, false);
    ApplyFieldList(a);
    FoldFieldsBytes(Step, FieldList(a), Initial);
  }

  /** `new()` is `62 03 80 01 00` as an RLRQ, the octets other implementations send. */
  lemma RlrqNewBytes()
    ensures Encodable(New())
    ensures ReleaseBytes(RlrqNumber, New()) == [0x62, 0x03, 0x80, 0x01, 0x00]
  {
    NewContent();
  }

  /** and `63 03 80 01 00` as an RLRE. */
  lemma RlreNewBytes()
    ensures Encodable(New())
    ensures ReleaseBytes(RlreNumber, New()) == [0x63, 0x03, 0x80, 0x01, 0x00]
  {
    NewContent();
  }

  lemma NewContent()
    ensures Encodable(New()) && FieldsBytes(FieldList(New())) == [0x80, 0x01, 0x00]
  {
    var f: FitField := Field(Primitive, 0, [0]);
    assert FieldList(New()) == [] + [f];
    FieldsBytesSnoc([], f);
  }

  /** An APDU with neither field is just its identifier and a zero length, and parses back empty. */
  lemma EmptyApdu(n: nat, rest: seq<byte>)
    requires n <= 30
    ensures Encodable(ReleaseApdu(None, None))
    ensures ReleaseBytes(n, ReleaseApdu(None, None)) == [EncodeTag(Application, Constructed, n), 0x00]
    ensures ParseSpec([EncodeTag(Application, Constructed, n), 0x00] + rest, n) == Some((ReleaseApdu(None, None), rest))
  {
    assert FieldList(ReleaseApdu(None, None)) == [];
    RoundTrip(n, ReleaseApdu(None, None), rest);
  }

  /** A reason field whose content is not exactly one octet is an error, whatever follows it. */
  lemma ReasonLengthRefused(n: nat, t: TagType, body: seq<byte>, more: seq<byte>, rest: seq<byte>)
    requires n <= 30 && |body| != 1 && |body| <= 0xFFFF
    requires |TlvBytes(EncodeTag(ContextSpecific, t, 0), body) + more| <= 0xFFFF
    ensures ParseSpec(EncodeApplication(n, Constructed, TlvBytes(EncodeTag(ContextSpecific, t, 0), body) + more) + rest, n) == None
  {
    ApplicationRoundTrip(n, TlvBytes(EncodeTag(ContextSpecific, t, 0), body) + more, rest, false);
    TlvRoundTrip(ContextSpecific, t, 0, body, more);
  }

  /** An identifier of another class or number than APPLICATION `n` is refused. */
  lemma WrongTagRefused(c: TagClass, t: TagType, m: nat, n: nat, s: seq<byte>)
    requires m <= 30 && (c != Application || m != n)
    ensures ParseSpec([EncodeTag(c, t, m)] + s, n) == None
  {
    TagRoundTrip(c, t, m, s);
  }

  /** The envelope's constructed bit is not checked: a primitive APPLICATION `n` parses the same. */
  lemma PrimitiveEnvelopeAccepted(n: nat, content: seq<byte>, rest: seq<byte>)
    requires n <= 30 && |content| <= 0xFFFF
    ensures ParseSpec(EncodeApplication(n, Primitive, content) + rest, n) == ParseSpec(EncodeApplication(n, Constructed, content) + rest, n)
  {
    ApplicationRoundTrip(n, content, rest, false);
    PrimitiveEnvelope(n, content, rest);
  }

  lemma PrimitiveEnvelope(n: nat, content: seq<byte>, rest: seq<byte>)
    requires n <= 30 && |content| <= 0xFFFF
    ensures ParseApplication(EncodeApplication(n, Primitive, content) + rest, n, false) == Some((content, rest))
  {
    var len := EncodeLength(|content|);
    assert EncodeApplication(n, Primitive, content) + rest == [EncodeTag(Application, Primitive, n)] + (len + content + rest);
    TagRoundTrip(Application, Primitive, n, len + content + rest);
    BodyRoundTrip(content, rest);
  }

  /** A trailing field of any class whose tag is neither context-specific 0 nor 30 is skipped. */
  lemma UnknownFieldSkipped(n: nat, a: ReleaseApdu, c: TagClass, t: TagType, m: nat, body: seq<byte>, rest: seq<byte>)
    requires n <= 30 && Encodable(a) && m <= 30 && |body| <= 0xFFFF
    requires c != ContextSpecific || (m != 0 && m != 30)
    requires |FieldsBytes(FieldList(a)) + TlvBytes(EncodeTag(c, t, m), body)| <= 0xFFFF
    ensures ParseSpec(EncodeApplication(n, Constructed, FieldsBytes(FieldList(a)) + TlvBytes(EncodeTag(c, t, m), body)) + rest, n) == Some((a, rest))
  {
    var junk := TlvBytes(EncodeTag(c, t, m), body);
    ApplicationRoundTrip(n, FieldsBytes(FieldList(a)) + junk, rest, false);
    ApplyFieldList(a);
    FoldFieldsThen(Step, FieldList(a), junk, Initial, a);
    JunkSkipped(a, c, t, m, body);
  }

  lemma JunkSkipped(acc: ReleaseApdu, c: TagClass, t: TagType, m: nat, body: seq<byte>)
    requires m <= 30 && |body| <= 0xFFFF
    requires c != ContextSpecific || (m != 0 && m != 30)
    ensures FoldFields(Step, TlvBytes(EncodeTag(c, t, m), body), acc) == Some(acc)
  {
    var junk := TlvBytes(EncodeTag(c, t, m), body);
    assert junk + [] == junk;
    TlvRoundTrip(c, t, m, body, []);
    assert Step(acc, Tag(c, t, m), body) == Some(acc);
  }

  /** A reason code other than 0 and 1 is not an error: the reason is left unset. */
  lemma UnknownReasonIgnored(n: nat, a: ReleaseApdu, b: byte, rest: seq<byte>)
    requires n <= 30 && Encodable(a) && a.reason.None? && b >= 2
    requires |[0x80, 0x01, b] + FieldsBytes(FieldList(a))| <= 0xFFFF
    ensures ParseSpec(EncodeApplication(n, Constructed, [0x80, 0x01, b] + FieldsBytes(FieldList(a))) + rest, n) == Some((a, rest))
  {
    var f: FitField := Field(Primitive, 0, [b]);
    FieldsBytesCons(f, FieldList(a));
    assert FieldBytes(f) == [0x80, 0x01, b];
    ApplicationRoundTrip(n, [0x80, 0x01, b] + FieldsBytes(FieldList(a)), rest, false);
    ApplyFieldList(a);
    assert ([f] + FieldList(a))[0] == f;
    assert ([f] + FieldList(a))[1..] == FieldList(a);
    assert Step(Initial, Tag(ContextSpecific, Primitive, 0), [b]) == Some(Initial);
    FoldFieldsThen(Step, [f] + FieldList(a), [], Initial, a);
    assert FieldsBytes([f] + FieldList(a)) + [] == [0x80, 0x01, b] + FieldsBytes(FieldList(a));
  }
}
