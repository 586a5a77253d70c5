/**
 * src/association/aarq.rs: the A-ASSOCIATE request, APPLICATION 0 constructed (0x60), whose
 * content is a run of context-specific fields. The encoder writes the protocol version, the
 * application-context name and each present optional field in tag order; it never writes the
 * four invocation ids. The parser walks the fields in a loop and requires the context name.
 */
module Aarq {
  import opened Bytes
  import opened Ber
  import opened AcseEnums
  import opened AcseFields
  import I = Initiate
  import C = Conformance

  /** `PROTOCOL_VERSION` of src/association/mod.rs. */
  const ProtocolVersion: byte := 0

  datatype AarqApdu = AarqApdu(
    protocolVersion: byte,
    applicationContextName: ContextName,
    calledApTitle: Option<seq<byte>>,
    calledAeQualifier: Option<seq<byte>>,
    calledApInvocationId: Option<u32>,
    calledAeInvocationId: Option<u32>,
    callingApTitle: Option<seq<byte>>,
    callingAeQualifier: Option<seq<byte>>,
    callingApInvocationId: Option<u32>,
    callingAeInvocationId: Option<u32>,
    senderAcseRequirements: Option<byte>,
    mechanismName: Option<MechanismName>,
    callingAuthenticationValue: Option<AuthenticationValue>,
    userInformation: Option<I.InitiateRequest>)

  /** The parse loop's mutable locals: the same fields, the context name not yet known. */
  datatype AarqLocals = AarqLocals(
    protocolVersion: byte,
    applicationContextName: Option<ContextName>,
    calledApTitle: Option<seq<byte>>,
    calledAeQualifier: Option<seq<byte>>,
    calledApInvocationId: Option<u32>,
    calledAeInvocationId: Option<u32>,
    callingApTitle: Option<seq<byte>>,
    callingAeQualifier: Option<seq<byte>>,
    callingApInvocationId: Option<u32>,
    callingAeInvocationId: Option<u32>,
    senderAcseRequirements: Option<byte>,
    mechanismName: Option<MechanismName>,
    callingAuthenticationValue: Option<AuthenticationValue>,
    userInformation: Option<I.InitiateRequest>)

  /** `AarqApdu::new_simple_ln`: LN referencing, lowest-level security, the library's LN InitiateRequest. */
  function NewSimpleLn(maxPduSize: u16): (a: AarqApdu)
    ensures a.protocolVersion == ProtocolVersion && a.applicationContextName == LogicalNameReferencing
    ensures a.mechanismName == Some(LowestLevelSecurity) && a.callingAuthenticationValue == None
    ensures a.userInformation == Some(I.NewRequest(C.TypicalClientLn, maxPduSize))
  {
    AarqApdu(ProtocolVersion, LogicalNameReferencing, None, None, None, None, None, None, None, None, None,
      Some(LowestLevelSecurity), None, Some(I.NewRequest(C.TypicalClientLn, maxPduSize)))
  }

  /** `AarqApdu::new_with_password`: low-level security with the password as a character string. */
  function NewWithPassword(maxPduSize: u16, password: seq<byte>): (a: AarqApdu)
    ensures a.applicationContextName == LogicalNameReferencing && a.mechanismName == Some(LowLevelSecurity)
    ensures a.callingAuthenticationValue == Some(CharString(password)) && a.callingApTitle == None
    ensures a.userInformation == Some(I.NewRequest(C.TypicalClientLn, maxPduSize))
  {
    AarqApdu(ProtocolVersion, LogicalNameReferencing, None, None, None, None, None, None, None, None, None,
      Some(LowLevelSecurity), Some(CharString(password)), Some(I.NewRequest(C.TypicalClientLn, maxPduSize)))
  }

  /** `AarqApdu::new_with_ciphering`: the system title as calling AP title, ciphered LN context, HLS-GMAC. */
  function NewWithCiphering(maxPduSize: u16, systemTitle: seq<byte>): (a: AarqApdu)
    requires |systemTitle| == 8
    ensures a.callingApTitle == Some(systemTitle)
    ensures a.applicationContextName == LogicalNameReferencingWithCiphering && UsesCiphering(a.applicationContextName)
    ensures a.mechanismName == Some(HighLevelSecurityGmac) && a.callingAuthenticationValue == None
  {
    AarqApdu(ProtocolVersion, LogicalNameReferencingWithCiphering, None, None, None, None, Some(systemTitle), None, None, None, None,
      Some(HighLevelSecurityGmac), None, Some(I.NewRequest(C.TypicalClientLn, maxPduSize)))
  }

  /** Every nested TLV of the fields fits a two-octet length. */
  predicate ComponentsFit(a: AarqApdu) {
    (a.calledApTitle.Some? ==> OctetsFit(a.calledApTitle.value))
    && (a.calledAeQualifier.Some? ==> OctetsFit(a.calledAeQualifier.value))
    && (a.callingApTitle.Some? ==> OctetsFit(a.callingApTitle.value))
    && (a.callingAeQualifier.Some? ==> OctetsFit(a.callingAeQualifier.value))
    && (a.callingAuthenticationValue.Some? ==> AuthFits(a.callingAuthenticationValue.value))
    && (a.userInformation.Some? ==> OctetsFit(I.RequestBytes(a.userInformation.value)))
  }

  function UserInformationField(o: Option<I.InitiateRequest>): (fs: seq<FitField>)
    requires o.Some? ==> OctetsFit(I.RequestBytes(o.value))
    ensures |fs| <= 1
  {
    if o.Some? then [Field(Constructed, 30, OctetsContent(I.RequestBytes(o.value)))] else []
  }

  /** The fields `encode` appends up to the calling AE qualifier, in its order. */
  function HeadFields(a: AarqApdu): seq<FitField>
    requires ComponentsFit(a)
  {
    [Field(Constructed, 0, VersionContent(a.protocolVersion))]
      + [Field(Constructed, 1, ContextContent(a.applicationContextName))]
      + OptionalOctetsField(2, a.calledApTitle)
      + OptionalOctetsField(3, a.calledAeQualifier)
      + OptionalOctetsField(6, a.callingApTitle)
      + OptionalOctetsField(7, a.callingAeQualifier)
  }

  /** All the fields `encode` appends, in its order. */
  function FieldList(a: AarqApdu): seq<FitField>
    requires ComponentsFit(a)
  {
    HeadFields(a)
      + OptionalAcseField(10, a.senderAcseRequirements)
      + OptionalMechanismField(11, a.mechanismName)
      + OptionalAuthField(12, a.callingAuthenticationValue)
      + UserInformationField(a.userInformation)
  }

  /** The APDUs `encode` handles without a panic in `encode_length`. */
  predicate Encodable(a: AarqApdu) {
    ComponentsFit(a) && |FieldsBytes(FieldList(a))| <= 0xFFFF
  }

  function AarqBytes(a: AarqApdu): seq<byte>
    requires Encodable(a)
  {
    EncodeApplication(0, Constructed, FieldsBytes(FieldList(a)))
  }

  /** `AarqApdu::encode`: each present field appended to `content`, then the APPLICATION 0 envelope. */
  method EncodeAarq(a: AarqApdu) returns (bytes: seq<byte>)
    requires Encodable(a)
    ensures bytes == AarqBytes(a)
  {
    var content := EncodeHead(a);
    content := AppendOptional(content, OptionalAcseField(10, a.senderAcseRequirements));
    content := AppendOptional(content, OptionalMechanismField(11, a.mechanismName));
    content := AppendOptional(content, OptionalAuthField(12, a.callingAuthenticationValue));
    var user: seq<FitField> := [];
    if a.userInformation.Some? {
      var initiate := I.EncodeRequest(a.userInformation.value);
      user := [Field(Constructed, 30, OctetsContent(initiate))];
    }
    content := AppendOptional(content, user);
    FieldsBytesFive(HeadFields(a), OptionalAcseField(10, a.senderAcseRequirements), OptionalMechanismField(11, a.mechanismName),
      OptionalAuthField(12, a.callingAuthenticationValue), UserInformationField(a.userInformation));
    bytes := EncodeApplication(0, Constructed, content);
  }

  /** The first part of `encode`: version, context name, called and calling titles and qualifiers. */
  method EncodeHead(a: AarqApdu) returns (content: seq<byte>)
    requires ComponentsFit(a)
    ensures content == FieldsBytes(HeadFields(a))
  {
    var version: seq<FitField> := [Field(Constructed, 0, VersionContent(a.protocolVersion))];
    var context: seq<FitField> := [Field(Constructed, 1, ContextContent(a.applicationContextName))];
    content := AppendOptional([], version);
    assert content == FieldsBytes(version);
    content := AppendOptional(content, context);
    content := AppendOptional(content, OptionalOctetsField(2, a.calledApTitle));
    content := AppendOptional(content, OptionalOctetsField(3, a.calledAeQualifier));
    content := AppendOptional(content, OptionalOctetsField(6, a.callingApTitle));
    content := AppendOptional(content, OptionalOctetsField(7, a.callingAeQualifier));
    FieldsBytesSix(version, context, OptionalOctetsField(2, a.calledApTitle), OptionalOctetsField(3, a.calledAeQualifier),
      OptionalOctetsField(6, a.callingApTitle), OptionalOctetsField(7, a.callingAeQualifier));
  }

  /** Encoding starts with 0x60, APPLICATION 0 constructed. */
  lemma AarqFirstOctet(a: AarqApdu)
    requires Encodable(a)
    ensures AarqBytes(a)[0] == 0x60
  {
  }

  /** The parser's initial locals: the default version and every field unset. */
  const Initial: AarqLocals := AarqLocals(ProtocolVersion, None, None, None, None, None, None, None, None, None, None, None, None, None)

  /** The loop body for one field: a class other than context-specific is an error; the number then decides. */
  function Step(acc: AarqLocals, tag: Tag, body: seq<byte>): Option<AarqLocals> {
    if tag.tagClass != ContextSpecific then None
    else if tag.number == 10 || tag.number == 11 then
      if tag.kind != Primitive then None else PrimitiveStep(acc, tag.number, body)
    else if tag.number <= 9 || tag.number == 12 || tag.number == 30 then
      if tag.kind != Constructed then None else ConstructedStep(acc, tag.number, body)
    else Some(acc)
  }

  /** Fields 10 (ACSE requirements) and 11 (mechanism name), which must be primitive. */
  function PrimitiveStep(acc: AarqLocals, n: nat, body: seq<byte>): Option<AarqLocals> {
    if n == 10 then
      match ReadAcse(body)
      case None => None
      case Some(o) => Some(if o.Some? then acc.(senderAcseRequirements := o) else acc)
    else
      match ReadMechanism(body)
      case None => None
      case Some(m) => Some(acc.(mechanismName := m))
  }

  /** The constructed fields 0-9, 12 and 30. */
  function ConstructedStep(acc: AarqLocals, n: nat, body: seq<byte>): Option<AarqLocals> {
    match n
    case 0 =>
      (match ReadVersion(body)
       case None => None
       case Some(v) => Some(acc.(protocolVersion := v)))
    case 1 =>
      (match ReadContext(body)
       case None => None
       case Some(x) => Some(acc.(applicationContextName := x)))
    case 2 => (match ReadOctets(body) case None => None case Some(t) => Some(acc.(calledApTitle := Some(t))))
    case 3 => (match ReadOctets(body) case None => None case Some(t) => Some(acc.(calledAeQualifier := Some(t))))
    case 6 => (match ReadOctets(body) case None => None case Some(t) => Some(acc.(callingApTitle := Some(t))))
    case 7 => (match ReadOctets(body) case None => None case Some(t) => Some(acc.(callingAeQualifier := Some(t))))
    case 4 => InvocationStep(acc, n, body)
    case 5 => InvocationStep(acc, n, body)
    case 8 => InvocationStep(acc, n, body)
    case 9 => InvocationStep(acc, n, body)
    case 12 =>
      (match ReadAuth(body)
       case None => None
       case Some(o) => Some(if o.Some? then acc.(callingAuthenticationValue := o) else acc))
    case _ =>
      (match ReadOctets(body)
       case None => None
       case Some(octets) =>
         match I.ParseRequest(octets)
         case None => Some(acc)
         case Some((r, _)) => Some(acc.(userInformation := Some(r))))
  }

  /** Fields 4, 5, 8 and 9: the called and calling invocation ids. */
  function InvocationStep(acc: AarqLocals, n: nat, body: seq<byte>): Option<AarqLocals> {
    match ReadInvocationId(body)
    case None => None
    case Some(None) => Some(acc)
    case Some(Some(v)) =>
      Some(if n == 4 then acc.(calledApInvocationId := Some(v))
        else if n == 5 then acc.(calledAeInvocationId := Some(v))
        else if n == 8 then acc.(callingApInvocationId := Some(v))
        else acc.(callingAeInvocationId := Some(v)))
  }

  /** The result once the loop is done: an error without a context name. */
  function Finish(l: AarqLocals): Option<AarqApdu> {
    if l.applicationContextName.None? then None
    else Some(AarqApdu(l.protocolVersion, l.applicationContextName.value, l.calledApTitle, l.calledAeQualifier,
      l.calledApInvocationId, l.calledAeInvocationId, l.callingApTitle, l.callingAeQualifier,
      l.callingApInvocationId, l.callingAeInvocationId, l.senderAcseRequirements, l.mechanismName,
      l.callingAuthenticationValue, l.userInformation))
  }

  /** `AarqApdu::parse`: the envelope, the field loop, the check for the context name. */
  function ParseAarqSpec(s: seq<byte>): Option<(AarqApdu, seq<byte>)> {
    match ParseApplication(s, 0, true)
    case None => None
    case Some((content, rest)) =>
      match FoldFields(Step, content, Initial)
      case None => None
      case Some(l) =>
        match Finish(l)
        case None => None
        case Some(a) => Some((a, rest))
  }

  /** The loop of `AarqApdu::parse`, which updates its locals field by field. */
  method ParseAarq(input: seq<byte>) returns (r: Option<(AarqApdu, seq<byte>)>)
    ensures r == ParseAarqSpec(input)
  {
    var envelope := ParseApplication(input, 0, true);
    if envelope.None? {
      return None;
    }
    var (content, remaining) := envelope.value;
    var acc := Initial;
    var rest := content;
    while |rest| > 0
      invariant FoldFields(Step, rest, acc) == FoldFields(Step, content, Initial)
      decreases |rest|
    {
      var field := ParseTlv(rest);
      if field.None? {
        return None;
      }
      var (tag, body, next) := field.value;
      var stepped := Step(acc, tag, body);
      if stepped.None? {
        return None;
      }
      acc, rest := stepped.value, next;
    }
    var a := Finish(acc);
    if a.None? {
      return None;
    }
    return Some((a.value, remaining));
  }

  /** What the parser recovers from an encoding: the invocation ids, never written, come back unset. */
  function Received(a: AarqApdu): AarqApdu {
    a.(calledApInvocationId := None, calledAeInvocationId := None, callingApInvocationId := None, callingAeInvocationId := None)
  }

  /** The requests whose encoding the parser restores up to the invocation ids. */
  predicate Restorable(a: AarqApdu) {
    Encodable(a) && a.protocolVersion <= 1
    && (a.userInformation.Some? ==> I.RequestRestorable(a.userInformation.value))
  }

  /** Parsing an envelope around encoded fields is the loop body applied to the fields, then the final check. */
  lemma ParseFields(fs: seq<FitField>, rest: seq<byte>, l: AarqLocals)
    requires |FieldsBytes(fs)| <= 0xFFFF && ApplyAll(Step, fs, Initial) == Some(l)
    ensures ParseSpecOf(fs, rest) == (if Finish(l).Some? then Some((Finish(l).value, rest)) else None)
  {
    ApplicationRoundTrip(0, FieldsBytes(fs), rest, true);
    FoldFieldsBytes(Step, fs, Initial);
  }

  /** The parse of an APDU whose content is the given fields. */
  function ParseSpecOf(fs: seq<FitField>, rest: seq<byte>): Option<(AarqApdu, seq<byte>)>
    requires |FieldsBytes(fs)| <= 0xFFFF
  {
    ParseAarqSpec(EncodeApplication(0, Constructed, FieldsBytes(fs)) + rest)
  }

  /** Parsing an encoding gives the request back without its invocation ids, the octets after it left over. */
  lemma AarqRoundTrip(a: AarqApdu, rest: seq<byte>)
    requires Restorable(a)
    ensures ParseAarqSpec(AarqBytes(a) + rest) == Some((Received(a), rest))
  {
    ApplyFieldList(a);
    ParseFields(FieldList(a), rest, Locals(a));
  }

  function Locals(a: AarqApdu): AarqLocals {
    AarqLocals(a.protocolVersion, Some(a.applicationContextName), a.calledApTitle, a.calledAeQualifier,
      None, None, a.callingApTitle, a.callingAeQualifier, None, None, a.senderAcseRequirements,
      a.mechanismName, a.callingAuthenticationValue, a.userInformation)
  }

  /** The locals the parser holds once it has read the fields of `HeadFields`. */
  function HeadLocals(a: AarqApdu): AarqLocals {
    Initial.(protocolVersion := a.protocolVersion, applicationContextName := Some(a.applicationContextName),
      calledApTitle := a.calledApTitle, calledAeQualifier := a.calledAeQualifier,
      callingApTitle := a.callingApTitle, callingAeQualifier := a.callingAeQualifier)
  }

  /** The loop body applied to the encoder's fields, one field at a time. */
  lemma ApplyFieldList(a: AarqApdu)
    requires Restorable(a)
    ensures ApplyAll(Step, FieldList(a), Initial) == Some(Locals(a))
  {
    ApplyHead(a);
    var s0 := HeadLocals(a);
    var s1 := s0.(senderAcseRequirements := a.senderAcseRequirements);
    var s2 := s1.(mechanismName := a.mechanismName);
    var s3 := s2.(callingAuthenticationValue := a.callingAuthenticationValue);
    var s4 := s3.(userInformation := a.userInformation);
    AcseSteps(s0, a.senderAcseRequirements);
    MechanismSteps(s1, a.mechanismName);
    AuthSteps(s2, a.callingAuthenticationValue);
    UserInformationSteps(s3, a.userInformation);
    ApplyAllFour(Step, HeadFields(a), OptionalAcseField(10, a.senderAcseRequirements), OptionalMechanismField(11, a.mechanismName),
      OptionalAuthField(12, a.callingAuthenticationValue), UserInformationField(a.userInformation), Initial, s0, s1, s2, s3, s4);
    assert s4 == Locals(a);
  }

  lemma ApplyHead(a: AarqApdu)
    requires ComponentsFit(a) && a.protocolVersion <= 1
    ensures ApplyAll(Step, HeadFields(a), Initial) == Some(HeadLocals(a))
  {
    var s2 := Initial.(protocolVersion := a.protocolVersion, applicationContextName := Some(a.applicationContextName));
    var s3 := s2.(calledApTitle := a.calledApTitle);
    var s4 := s3.(calledAeQualifier := a.calledAeQualifier);
    var s5 := s4.(callingApTitle := a.callingApTitle);
    var s6 := s5.(callingAeQualifier := a.callingAeQualifier);
    ApplyFirstTwo(a);
    OctetsSteps(s2, 2, a.calledApTitle);
    OctetsSteps(s3, 3, a.calledAeQualifier);
    OctetsSteps(s4, 6, a.callingApTitle);
    OctetsSteps(s5, 7, a.callingAeQualifier);
    ApplyAllFour(Step, [Field(Constructed, 0, VersionContent(a.protocolVersion))] + [Field(Constructed, 1, ContextContent(a.applicationContextName))],
      OptionalOctetsField(2, a.calledApTitle), OptionalOctetsField(3, a.calledAeQualifier),
      OptionalOctetsField(6, a.callingApTitle), OptionalOctetsField(7, a.callingAeQualifier), Initial, s2, s3, s4, s5, s6);
  }

  /** The local of a title or qualifier field: 2 and 3 the called, 6 and 7 the calling AP title and AE qualifier. */
  function SetTitle(acc: AarqLocals, n: nat, o: Option<seq<byte>>): AarqLocals {
    if n == 2 then acc.(calledApTitle := o) else if n == 3 then acc.(calledAeQualifier := o)
    else if n == 6 then acc.(callingApTitle := o) else acc.(callingAeQualifier := o)
  }

  /** A title or qualifier field sets its own local, over a local still unset. */
  lemma OctetsSteps(acc: AarqLocals, n: nat, o: Option<seq<byte>>)
    requires (n == 2 || n == 3 || n == 6 || n == 7) && (o.Some? ==> OctetsFit(o.value))
    requires o.None? ==> SetTitle(acc, n, o) == acc
    ensures StepsTo(Step, OptionalOctetsField(n, o), acc, SetTitle(acc, n, o))
  {
    if o.Some? {
      OctetsRoundTrip(o.value);
      TitleStepAt(acc, n, OctetsContent(o.value), o.value);
    }
  }

  lemma TitleStepAt(acc: AarqLocals, n: nat, body: seq<byte>, t: seq<byte>)
    requires (n == 2 || n == 3 || n == 6 || n == 7) && ReadOctets(body) == Some(t)
    ensures Step(acc, Tag(ContextSpecific, Constructed, n), body) == Some(SetTitle(acc, n, Some(t)))
  {
  }

  /** The first two fields: the protocol version and the application-context name. */
  lemma ApplyFirstTwo(a: AarqApdu)
    requires a.protocolVersion <= 1
    ensures ApplyAll(Step, [Field(Constructed, 0, VersionContent(a.protocolVersion))] + [Field(Constructed, 1, ContextContent(a.applicationContextName))], Initial)
      == Some(Initial.(protocolVersion := a.protocolVersion, applicationContextName := Some(a.applicationContextName)))
  {
    var s1 := Initial.(protocolVersion := a.protocolVersion);
    var s2 := s1.(applicationContextName := Some(a.applicationContextName));
    VersionRoundTrip(a.protocolVersion);
    VersionStepAt(Initial, VersionContent(a.protocolVersion), a.protocolVersion);
    ContextRoundTrip(a.applicationContextName);
    ContextStepAt(s1, ContextContent(a.applicationContextName), a.applicationContextName);
    ApplyAllTwo(Step, [Field(Constructed, 0, VersionContent(a.protocolVersion))], [Field(Constructed, 1, ContextContent(a.applicationContextName))], Initial, s1, s2);
  }

  lemma VersionStepAt(acc: AarqLocals, body: seq<byte>, v: byte)
    requires ReadVersion(body) == Some(v)
    ensures Step(acc, Tag(ContextSpecific, Constructed, 0), body) == Some(acc.(protocolVersion := v))
  {
  }

  lemma ContextStepAt(acc: AarqLocals, body: seq<byte>, x: ContextName)
    requires ReadContext(body) == Some(Some(x))
    ensures Step(acc, Tag(ContextSpecific, Constructed, 1), body) == Some(acc.(applicationContextName := Some(x)))
  {
  }

  lemma AcseSteps(acc: AarqLocals, o: Option<byte>)
    requires acc.senderAcseRequirements == None
    ensures StepsTo(Step, OptionalAcseField(10, o), acc, acc.(senderAcseRequirements := o))
  {
    if o.Some? {
      AcseRoundTrip(o.value);
    }
  }

  lemma MechanismSteps(acc: AarqLocals, o: Option<MechanismName>)
    requires acc.mechanismName == None
    ensures StepsTo(Step, OptionalMechanismField(11, o), acc, acc.(mechanismName := o))
  {
    if o.Some? {
      MechanismRoundTrip(o.value);
    }
  }

  lemma AuthSteps(acc: AarqLocals, o: Option<AuthenticationValue>)
    requires acc.callingAuthenticationValue == None && (o.Some? ==> AuthFits(o.value))
    ensures StepsTo(Step, OptionalAuthField(12, o), acc, acc.(callingAuthenticationValue := o))
  {
    if o.Some? {
      AuthRoundTrip(o.value);
      AuthStepAt(acc, AuthContent(o.value), o.value);
    }
  }

  lemma AuthStepAt(acc: AarqLocals, body: seq<byte>, av: AuthenticationValue)
    requires ReadAuth(body) == Some(Some(av))
    ensures Step(acc, Tag(ContextSpecific, Constructed, 12), body) == Some(acc.(callingAuthenticationValue := Some(av)))
  {
  }

  lemma UserInformationSteps(acc: AarqLocals, o: Option<I.InitiateRequest>)
    requires acc.userInformation == None
    requires o.Some? ==> OctetsFit(I.RequestBytes(o.value)) && I.RequestRestorable(o.value)
    ensures StepsTo(Step, UserInformationField(o), acc, acc.(userInformation := o))
  {
    if o.Some? {
      var r := o.value;
      OctetsRoundTrip(I.RequestBytes(r));
      assert I.RequestBytes(r) + [] == I.RequestBytes(r);
      I.RequestRoundTrip(r, []);
      UserInformationStepAt(acc, OctetsContent(I.RequestBytes(r)), I.RequestBytes(r), r);
    }
  }

  lemma UserInformationStepAt(acc: AarqLocals, body: seq<byte>, octets: seq<byte>, r: I.InitiateRequest)
    requires ReadOctets(body) == Some(octets) && I.ParseRequest(octets) == Some((r, []))
    ensures Step(acc, Tag(ContextSpecific, Constructed, 30), body) == Some(acc.(userInformation := Some(r)))
  {
  }

  /** A user-information field whose content is not an InitiateRequest leaves the locals as they were. */
  lemma UnparsableUserInformationSteps(acc: AarqLocals)
    ensures StepsTo(Step, [Field(Constructed, 30, OctetsContent([]))], acc, acc)
  {
    OctetsRoundTrip([]);
    assert I.ParseRequest([]) == None;
  }

  /** A context-specific field with a number the parser does not know is skipped. */
  lemma UnknownFieldSkipped(a: AarqApdu, junk: FitField, rest: seq<byte>)
    requires Restorable(a)
    requires (junk.number == 13 || junk.number == 29) && |FieldsBytes(FieldList(a) + [junk])| <= 0xFFFF
    ensures ParseAarqSpec(EncodeApplication(0, Constructed, FieldsBytes(FieldList(a) + [junk])) + rest) == Some((Received(a), rest))
  {
    ApplyFieldList(a);
    UnknownSteps(Locals(a), junk);
    ApplyAllSnoc(Step, FieldList(a), [junk], Initial, Locals(a), Locals(a));
    ParseFields(FieldList(a) + [junk], rest, Locals(a));
  }

  lemma UnknownSteps(acc: AarqLocals, junk: Field)
    requires junk.number == 13 || junk.number == 29
    ensures StepsTo(Step, [junk], acc, acc)
  {
  }

  /** A user-information field whose InitiateRequest does not parse is dropped without an error. */
  lemma UnparsableUserInformationDropped(a: AarqApdu, rest: seq<byte>)
    requires Restorable(a) && a.userInformation.None?
    requires |FieldsBytes(FieldList(a) + [Field(Constructed, 30, OctetsContent([]))])| <= 0xFFFF
    ensures ParseAarqSpec(EncodeApplication(0, Constructed, FieldsBytes(FieldList(a) + [Field(Constructed, 30, OctetsContent([]))])) + rest)
      == Some((Received(a), rest))
  {
    var extra: seq<FitField> := [Field(Constructed, 30, OctetsContent([]))];
    ApplyFieldList(a);
    UnparsableUserInformationSteps(Locals(a));
    ApplyAllSnoc(Step, FieldList(a), extra, Initial, Locals(a), Locals(a));
    ParseFields(FieldList(a) + extra, rest, Locals(a));
  }

  /** Without an application-context-name field the parse fails, whatever the other fields are. */
  lemma MissingContextRefused(fs: seq<FitField>, rest: seq<byte>)
    requires |FieldsBytes(fs)| <= 0xFFFF
    requires forall i :: 0 <= i < |fs| ==> fs[i].number != 1
    ensures ParseAarqSpec(EncodeApplication(0, Constructed, FieldsBytes(fs)) + rest) == None
  {
    ApplicationRoundTrip(0, FieldsBytes(fs), rest, true);
    FoldFieldsBytes(Step, fs, Initial);
    ApplyAllKeepsContext(fs, Initial);
  }

  /** Fields other than number 1 never set the context name. */
  lemma {:induction false} ApplyAllKeepsContext(fs: seq<Field>, acc: AarqLocals)
    requires forall i :: 0 <= i < |fs| ==> fs[i].number != 1
    ensures ApplyAll(Step, fs, acc).Some? ==> ApplyAll(Step, fs, acc).value.applicationContextName == acc.applicationContextName
    decreases |fs|
  {
    if |fs| > 0 {
      var tag := Tag(ContextSpecific, fs[0].kind, fs[0].number);
      StepKeepsContext(acc, tag, fs[0].content);
      var next := Step(acc, tag, fs[0].content);
      if next.Some? {
        ApplyAllKeepsContext(fs[1..], next.value);
      }
    }
  }

  lemma StepKeepsContext(acc: AarqLocals, tag: Tag, body: seq<byte>)
    requires tag.number != 1
    ensures Step(acc, tag, body).Some? ==> Step(acc, tag, body).value.applicationContextName == acc.applicationContextName
  {
  }

  /** A field of another class than context-specific inside the AARQ is an error. */
  lemma ForeignFieldRefused(c: TagClass, t: TagType, n: nat, body: seq<byte>, more: seq<byte>, rest: seq<byte>)
    requires c != ContextSpecific && n <= 30 && |body| <= 0xFFFF
    requires |TlvBytes(EncodeTag(c, t, n), body) + more| <= 0xFFFF
    ensures ParseAarqSpec(EncodeApplication(0, Constructed, TlvBytes(EncodeTag(c, t, n), body) + more) + rest) == None
  {
    ApplicationRoundTrip(0, TlvBytes(EncodeTag(c, t, n), body) + more, rest, true);
    TlvRoundTrip(c, t, n, body, more);
  }

  /** The library's constructors produce requests that survive the round trip. */
  lemma NewSimpleLnRoundTrip(maxPduSize: u16)
    ensures Restorable(NewSimpleLn(maxPduSize))
    ensures ParseAarqSpec(AarqBytes(NewSimpleLn(maxPduSize))) == Some((NewSimpleLn(maxPduSize), []))
  {
    var a := NewSimpleLn(maxPduSize);
    assert C.Fits(C.TypicalClientLn);
    SimpleLnSize(a);
    AarqRoundTrip(a, []);
    assert AarqBytes(a) + [] == AarqBytes(a);
  }

  lemma SimpleLnSize(a: AarqApdu)
    requires a.userInformation.Some? && a == NewSimpleLn(a.userInformation.value.clientMaxReceivePduSize)
    ensures Encodable(a)
  {
    var fs := FieldList(a);
    var f0: FitField := Field(Constructed, 0, VersionContent(a.protocolVersion));
    var f1: FitField := Field(Constructed, 1, ContextContent(a.applicationContextName));
    var f2: FitField := Field(Primitive, 11, MechanismContent(a.mechanismName.value));
    var f3: FitField := Field(Constructed, 30, OctetsContent(I.RequestBytes(a.userInformation.value)));
    assert fs == [f0] + [f1] + [f2] + [f3];
    FieldsBytesSnoc([], f0);
    assert [] + [f0] == [f0];
    FieldsBytesSnoc([f0], f1);
    FieldsBytesSnoc([f0] + [f1], f2);
    FieldsBytesSnoc([f0] + [f1] + [f2], f3);
  }
}
