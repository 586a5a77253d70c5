/**
 * src/association/aare.rs: the A-ASSOCIATE response, APPLICATION 1 constructed (0x61). The
 * encoder always writes version, context name, result and diagnostic, then each present
 * optional field; it never writes the two invocation ids. The parser walks the fields in a loop
 * and requires the context name, the result and the diagnostic.
 */
module Aare {
  import opened Bytes
  import opened Ber
  import opened AcseEnums
  import opened AcseFields
  import I = Initiate
  import C = Conformance

  /** `PROTOCOL_VERSION` of src/association/mod.rs. */
  const ProtocolVersion: byte := 0

  datatype AareApdu = AareApdu(
    protocolVersion: byte,
    applicationContextName: ContextName,
    result: AssociationResult,
    resultSourceDiagnostic: Diagnostic,
    respondingApTitle: Option<seq<byte>>,
    respondingAeQualifier: Option<seq<byte>>,
    respondingApInvocationId: Option<u32>,
    respondingAeInvocationId: Option<u32>,
    responderAcseRequirements: Option<byte>,
    mechanismName: Option<MechanismName>,
    respondingAuthenticationValue: Option<AuthenticationValue>,
    userInformation: Option<I.InitiateResponse>)

  /** The parse loop's mutable locals: the three required fields not yet known. */
  datatype AareLocals = AareLocals(
    protocolVersion: byte,
    applicationContextName: Option<ContextName>,
    result: Option<AssociationResult>,
    resultSourceDiagnostic: Option<Diagnostic>,
    respondingApTitle: Option<seq<byte>>,
    respondingAeQualifier: Option<seq<byte>>,
    respondingApInvocationId: Option<u32>,
    respondingAeInvocationId: Option<u32>,
    responderAcseRequirements: Option<byte>,
    mechanismName: Option<MechanismName>,
    respondingAuthenticationValue: Option<AuthenticationValue>,
    userInformation: Option<I.InitiateResponse>)

  /** `AareApdu::new_accepted`: accepted, diagnostic null, the InitiateResponse as user information. */
  function NewAccepted(context: ContextName, response: I.InitiateResponse): (a: AareApdu)
    ensures IsAccepted(a) && a.resultSourceDiagnostic == Null
    ensures a.applicationContextName == context && a.userInformation == Some(response)
    ensures a.protocolVersion == ProtocolVersion && a.mechanismName == None && a.respondingAuthenticationValue == None
  {
    AareApdu(ProtocolVersion, context, Accepted, Null, None, None, None, None, None, None, None, Some(response))
  }

  /** `AareApdu::new_rejected`: the given result and diagnostic, no user information. */
  function NewRejected(context: ContextName, result: AssociationResult, diagnostic: Diagnostic): (a: AareApdu)
    ensures IsAccepted(a) <==> result == Accepted
    ensures a.resultSourceDiagnostic == diagnostic && a.applicationContextName == context
    ensures a.userInformation == None && a.protocolVersion == ProtocolVersion
  {
    AareApdu(ProtocolVersion, context, result, diagnostic, None, None, None, None, None, None, None, None)
  }

  /** `AareApdu::is_accepted`. */
  predicate IsAccepted(a: AareApdu) {
    a.result == Accepted
  }

  /** `result`: an INTEGER of one octet, `02 01 r`. */
  function ResultContent(r: AssociationResult): (c: seq<byte>)
    ensures |c| == 3
  {
    [0x02, 0x01, ResultCode(r)]
  }

  /** `result-source-diagnostic`: the CHOICE `[1]` acse-service-user, constructed, around `02 01 d`. */
  function DiagnosticContent(d: Diagnostic): (c: seq<byte>)
    ensures |c| == 5
  {
    EncodeContextSpecific(1, Constructed, [0x02, 0x01, DiagnosticCode(d)])
  }

  /** The parser's reading of a one-octet INTEGER: tag 2, length 1 and a value octet, anything else an error. */
  function ReadSmallInteger(s: seq<byte>): (r: Option<byte>)
    ensures r.Some? <==> |s| >= 3 && s[0] == 0x02 && s[1] == 0x01
  {
    if |s| < 1 || s[0] != 0x02 then None
    else if |s| < 2 || s[1] != 0x01 || |s| < 3 then None
    else Some(s[2])
  }

  /** The result field: an unknown code is stored as no result. */
  function ReadResult(body: seq<byte>): Option<Option<AssociationResult>> {
    match ReadSmallInteger(body)
    case None => None
    case Some(v) => Some(ResultFromByte(v))
  }

  lemma ResultRoundTrip(r: AssociationResult)
    ensures ReadResult(ResultContent(r)) == Some(Some(r))
  {
    ResultCodes(r, 0);
  }

  /**
   * The diagnostic field: a context-specific `[1]` constructed identifier and a length that fits,
   * then the INTEGER, read from the octets after the length (the choice's length does not bound it).
   */
  function ReadDiagnostic(body: seq<byte>): Option<Option<Diagnostic>> {
    match ParseTag(body)
    case Err(_) => None
    case Ok((t, s1)) =>
      if t.tagClass != ContextSpecific || t.number != 1 || t.kind != Constructed then None
      else ReadDiagnosticChoice(s1)
  }

  function ReadDiagnosticChoice(s1: seq<byte>): Option<Option<Diagnostic>> {
    match ParseLength(s1)
    case Err(_) => None
    case Ok((n, s2)) =>
      if |s2| < n then None
      else
        match ReadSmallInteger(s2)
        case None => None
        case Some(v) => Some(DiagnosticFromByte(v))
  }

  lemma DiagnosticRoundTrip(d: Diagnostic)
    ensures ReadDiagnostic(DiagnosticContent(d)) == Some(Some(d))
  {
    var v: seq<byte> := [0x02, 0x01, DiagnosticCode(d)];
    assert DiagnosticContent(d) == [EncodeTag(ContextSpecific, Constructed, 1)] + (EncodeLength(3) + v);
    TagRoundTrip(ContextSpecific, Constructed, 1, EncodeLength(3) + v);
    LengthRoundTrip(3, v);
    DiagnosticCodes(d, 0);
  }

  /** The INTEGER is read past a choice length that is too short: `[1]` of length 0 still yields the diagnostic. */
  lemma DiagnosticPastChoiceLength(d: Diagnostic)
    ensures ReadDiagnostic([0xA1, 0x00, 0x02, 0x01, DiagnosticCode(d)]) == Some(Some(d))
  {
    var v: seq<byte> := [0x02, 0x01, DiagnosticCode(d)];
    assert [0xA1, 0x00, 0x02, 0x01, DiagnosticCode(d)] == [EncodeTag(ContextSpecific, Constructed, 1)] + ([0x00] + v);
    TagRoundTrip(ContextSpecific, Constructed, 1, [0x00] + v);
    LengthRoundTrip(0, v);
    assert EncodeLength(0) == [0x00];
    DiagnosticCodes(d, 0);
  }

  /** Every nested TLV of the fields fits a two-octet length. */
  predicate ComponentsFit(a: AareApdu) {
    (a.respondingApTitle.Some? ==> OctetsFit(a.respondingApTitle.value))
    && (a.respondingAeQualifier.Some? ==> OctetsFit(a.respondingAeQualifier.value))
    && (a.respondingAuthenticationValue.Some? ==> AuthFits(a.respondingAuthenticationValue.value))
  }

  /** An InitiateResponse is at most ten octets. */
  lemma ResponseFits(r: I.InitiateResponse)
    ensures OctetsFit(I.ResponseBytes(r)) && |I.ResponseBytes(r)| <= 10
  {
  }

  function UserInformationField(o: Option<I.InitiateResponse>): (fs: seq<FitField>)
    ensures |fs| <= 1
  {
    if o.Some? then
      ResponseFits(o.value);
      [Field(Constructed, 30, OctetsContent(I.ResponseBytes(o.value)))]
    else []
  }

  /** The fields `encode` appends up to the responding AE qualifier, in its order. */
  function HeadFields(a: AareApdu): seq<FitField>
    requires ComponentsFit(a)
  {
    [Field(Constructed, 0, VersionContent(a.protocolVersion))]
      + [Field(Constructed, 1, ContextContent(a.applicationContextName))]
      + [Field(Constructed, 2, ResultContent(a.result))]
      + [Field(Constructed, 3, DiagnosticContent(a.resultSourceDiagnostic))]
      + OptionalOctetsField(4, a.respondingApTitle)
      + OptionalOctetsField(5, a.respondingAeQualifier)
  }

  /** All the fields `encode` appends, in its order. */
  function FieldList(a: AareApdu): seq<FitField>
    requires ComponentsFit(a)
  {
    HeadFields(a)
      + OptionalAcseField(8, a.responderAcseRequirements)
      + OptionalMechanismField(9, a.mechanismName)
      + OptionalAuthField(10, a.respondingAuthenticationValue)
      + UserInformationField(a.userInformation)
  }

  /** The APDUs `encode` handles without a panic in `encode_length`. */
  predicate Encodable(a: AareApdu) {
    ComponentsFit(a) && |FieldsBytes(FieldList(a))| <= 0xFFFF
  }

  function AareBytes(a: AareApdu): seq<byte>
    requires Encodable(a)
  {
    EncodeApplication(1, Constructed, FieldsBytes(FieldList(a)))
  }

  /** `AareApdu::encode`: each field appended to `content`, then the APPLICATION 1 envelope. */
  method EncodeAare(a: AareApdu) returns (bytes: seq<byte>)
    requires Encodable(a)
    ensures bytes == AareBytes(a)
  {
    var content := EncodeHead(a);
    content := AppendOptional(content, OptionalAcseField(8, a.responderAcseRequirements));
    content := AppendOptional(content, OptionalMechanismField(9, a.mechanismName));
    content := AppendOptional(content, OptionalAuthField(10, a.respondingAuthenticationValue));
    var user: seq<FitField> := [];
    if a.userInformation.Some? {
      var initiate := I.EncodeResponse(a.userInformation.value);
      ResponseFits(a.userInformation.value);
      user := [Field(Constructed, 30, OctetsContent(initiate))];
    }
    content := AppendOptional(content, user);
    FieldsBytesFive(HeadFields(a), OptionalAcseField(8, a.responderAcseRequirements), OptionalMechanismField(9, a.mechanismName),
      OptionalAuthField(10, a.respondingAuthenticationValue), UserInformationField(a.userInformation));
    bytes := EncodeApplication(1, Constructed, content);
  }

  /** The first part of `encode`: version, context name, result, diagnostic, responding title and qualifier. */
  method EncodeHead(a: AareApdu) returns (content: seq<byte>)
    requires ComponentsFit(a)
    ensures content == FieldsBytes(HeadFields(a))
  {
    var version: seq<FitField> := [Field(Constructed, 0, VersionContent(a.protocolVersion))];
    var context: seq<FitField> := [Field(Constructed, 1, ContextContent(a.applicationContextName))];
    var result: seq<FitField> := [Field(Constructed, 2, ResultContent(a.result))];
    var diagnostic: seq<FitField> := [Field(Constructed, 3, DiagnosticContent(a.resultSourceDiagnostic))];
    content := AppendOptional([], version);
    assert content == FieldsBytes(version);
    content := AppendOptional(content, context);
    content := AppendOptional(content, result);
    content := AppendOptional(content, diagnostic);
    content := AppendOptional(content, OptionalOctetsField(4, a.respondingApTitle));
    content := AppendOptional(content, OptionalOctetsField(5, a.respondingAeQualifier));
    FieldsBytesSix(version, context, result, diagnostic, OptionalOctetsField(4, a.respondingApTitle), OptionalOctetsField(5, a.respondingAeQualifier));
  }

  /** Encoding starts with 0x61, APPLICATION 1 constructed. */
  lemma AareFirstOctet(a: AareApdu)
    requires Encodable(a)
    ensures AareBytes(a)[0] == 0x61
  {
  }

  /** The parser's initial locals: the default version and every field unset. */
  const Initial: AareLocals := AareLocals(ProtocolVersion, None, None, None, None, None, None, None, None, None, None, None)

  /** The loop body for one field: a class other than context-specific is an error; the number then decides. */
  function Step(acc: AareLocals, tag: Tag, body: seq<byte>): Option<AareLocals> {
    if tag.tagClass != ContextSpecific then None
    else if tag.number == 8 || tag.number == 9 then
      if tag.kind != Primitive then None else PrimitiveStep(acc, tag.number, body)
    else if tag.number <= 7 || tag.number == 10 || tag.number == 30 then
      if tag.kind != Constructed then None else ConstructedStep(acc, tag.number, body)
    else Some(acc)
  }

  /** Fields 8 (ACSE requirements) and 9 (mechanism name), which must be primitive. */
  function PrimitiveStep(acc: AareLocals, n: nat, body: seq<byte>): Option<AareLocals> {
    if n == 8 then
      match ReadAcse(body)
      case None => None
      case Some(o) => Some(if o.Some? then acc.(responderAcseRequirements := o) else acc)
    else
      match ReadMechanism(body)
      case None => None
      case Some(m) => Some(acc.(mechanismName := m))
  }

  /** The constructed fields 0-7, 10 and 30. */
  function ConstructedStep(acc: AareLocals, n: nat, body: seq<byte>): Option<AareLocals> {
    match n
    case 0 =>
      (match ReadVersion(body)
       case None => None
       case Some(v) => Some(acc.(protocolVersion := v)))
    case 1 =>
      (match ReadContext(body)
       case None => None
       case Some(x) => Some(acc.(applicationContextName := x)))
    case 2 =>
      (match ReadResult(body)
       case None => None
       case Some(r) => Some(acc.(result := r)))
    case 3 =>
      (match ReadDiagnostic(body)
       case None => None
       case Some(d) => Some(acc.(resultSourceDiagnostic := d)))
    case 4 => (match ReadOctets(body) case None => None case Some(t) => Some(acc.(respondingApTitle := Some(t))))
    case 5 => (match ReadOctets(body) case None => None case Some(t) => Some(acc.(respondingAeQualifier := Some(t))))
    case 6 =>
      (match ReadInvocationId(body)
       case None => None
       case Some(v) => Some(if v.Some? then acc.(respondingApInvocationId := v) else acc))
    case 7 =>
      (match ReadInvocationId(body)
       case None => None
       case Some(v) => Some(if v.Some? then acc.(respondingAeInvocationId := v) else acc))
    case 10 =>
      (match ReadAuth(body)
       case None => None
       case Some(o) => Some(if o.Some? then acc.(respondingAuthenticationValue := o) else acc))
    case _ =>
      (match ReadOctets(body)
       case None => None
       case Some(octets) =>
         match I.ParseResponse(octets)
         case None => Some(acc)
         case Some((r, _)) => Some(acc.(userInformation := Some(r))))
  }

  /** The result once the loop is done: an error without a context name, a result or a diagnostic. */
  function Finish(l: AareLocals): Option<AareApdu> {
    if l.applicationContextName.None? || l.result.None? || l.resultSourceDiagnostic.None? then None
    else Some(AareApdu(l.protocolVersion, l.applicationContextName.value, l.result.value, l.resultSourceDiagnostic.value,
      l.respondingApTitle, l.respondingAeQualifier, l.respondingApInvocationId, l.respondingAeInvocationId,
      l.responderAcseRequirements, l.mechanismName, l.respondingAuthenticationValue, l.userInformation))
  }

  /** `AareApdu::parse`: the envelope, the field loop, the check for the three required fields. */
  function ParseAareSpec(s: seq<byte>): Option<(AareApdu, seq<byte>)> {
    match ParseApplication(s, 1, true)
    case None => None
    case Some((content, rest)) =>
      match FoldFields(Step, content, Initial)
      case None => None
      case Some(l) =>
        match Finish(l)
        case None => None
        case Some(a) => Some((a, rest))
  }

  /** The loop of `AareApdu::parse`, which updates its locals field by field. */
  method ParseAare(input: seq<byte>) returns (r: Option<(AareApdu, seq<byte>)>)
    ensures r == ParseAareSpec(input)
  {
    var envelope := ParseApplication(input, 1, true);
    if envelope.None? {
      return None;
    }
    var (content, remaining) := envelope.value;
    var acc := Initial;
    var rest := content;
    while |rest| > 0
      invariant FoldFields(Step, rest, acc) == FoldFields(Step, content, Initial)
      decreases |rest|
    {
      var field := ParseTlv(rest);
      if field.None? {
        return None;
      }
      var (tag, body, next) := field.value;
      var stepped := Step(acc, tag, body);
      if stepped.None? {
        return None;
      }
      acc, rest := stepped.value, next;
    }
    var a := Finish(acc);
    if a.None? {
      return None;
    }
    return Some((a.value, remaining));
  }

  /** What the parser recovers from an encoding: the invocation ids, never written, come back unset. */
  function Received(a: AareApdu): AareApdu {
    a.(respondingApInvocationId := None, respondingAeInvocationId := None)
  }

  /** The responses whose encoding the parser restores up to the invocation ids. */
  predicate Restorable(a: AareApdu) {
    Encodable(a) && a.protocolVersion <= 1
    && (a.userInformation.Some? ==> C.Fits(a.userInformation.value.negotiatedConformance))
  }

  /** Parsing an envelope around encoded fields is the loop body applied to the fields, then the final check. */
  lemma ParseFields(fs: seq<FitField>, rest: seq<byte>, l: AareLocals)
    requires |FieldsBytes(fs)| <= 0xFFFF && ApplyAll(Step, fs, Initial) == Some(l)
    ensures ParseSpecOf(fs, rest) == (if Finish(l).Some? then Some((Finish(l).value, rest)) else None)
  {
    ApplicationRoundTrip(1, FieldsBytes(fs), rest, true);
    FoldFieldsBytes(Step, fs, Initial);
  }

  /** The parse of an APDU whose content is the given fields. */
  function ParseSpecOf(fs: seq<FitField>, rest: seq<byte>): Option<(AareApdu, seq<byte>)>
    requires |FieldsBytes(fs)| <= 0xFFFF
  {
    ParseAareSpec(EncodeApplication(1, Constructed, FieldsBytes(fs)) + rest)
  }

  /** Parsing an encoding gives the response back without its invocation ids, the octets after it left over. */
  lemma AareRoundTrip(a: AareApdu, rest: seq<byte>)
    requires Restorable(a)
    ensures ParseAareSpec(AareBytes(a) + rest) == Some((Received(a), rest))
  {
    ApplyFieldList(a);
    ParseFields(FieldList(a), rest, Locals(a));
  }

  function Locals(a: AareApdu): AareLocals {
    AareLocals(a.protocolVersion, Some(a.applicationContextName), Some(a.result), Some(a.resultSourceDiagnostic),
      a.respondingApTitle, a.respondingAeQualifier, None, None, a.responderAcseRequirements,
      a.mechanismName, a.respondingAuthenticationValue, a.userInformation)
  }

  /** The locals the parser holds once it has read the fields of `HeadFields`. */
  function HeadLocals(a: AareApdu): AareLocals {
    Initial.(protocolVersion := a.protocolVersion, applicationContextName := Some(a.applicationContextName),
      result := Some(a.result), resultSourceDiagnostic := Some(a.resultSourceDiagnostic),
      respondingApTitle := a.respondingApTitle, respondingAeQualifier := a.respondingAeQualifier)
  }

  /** The loop body applied to the encoder's fields, one field at a time. */
  lemma ApplyFieldList(a: AareApdu)
    requires Restorable(a)
    ensures ApplyAll(Step, FieldList(a), Initial) == Some(Locals(a))
  {
    ApplyHead(a);
    var s0 := HeadLocals(a);
    var s1 := s0.(responderAcseRequirements := a.responderAcseRequirements);
    var s2 := s1.(mechanismName := a.mechanismName);
    var s3 := s2.(respondingAuthenticationValue := a.respondingAuthenticationValue);
    var s4 := s3.(userInformation := a.userInformation);
    AcseSteps(s0, a.responderAcseRequirements);
    MechanismSteps(s1, a.mechanismName);
    AuthSteps(s2, a.respondingAuthenticationValue);
    UserInformationSteps(s3, a.userInformation);
    ApplyAllFour(Step, HeadFields(a), OptionalAcseField(8, a.responderAcseRequirements), OptionalMechanismField(9, a.mechanismName),
      OptionalAuthField(10, a.respondingAuthenticationValue), UserInformationField(a.userInformation), Initial, s0, s1, s2, s3, s4);
    assert s4 == Locals(a);
  }

  lemma ApplyHead(a: AareApdu)
    requires ComponentsFit(a) && a.protocolVersion <= 1
    ensures ApplyAll(Step, HeadFields(a), Initial) == Some(HeadLocals(a))
  {
    var s2 := Initial.(protocolVersion := a.protocolVersion, applicationContextName := Some(a.applicationContextName));
    var s3 := s2.(result := Some(a.result));
    var s4 := s3.(resultSourceDiagnostic := Some(a.resultSourceDiagnostic));
    var s5 := s4.(respondingApTitle := a.respondingApTitle);
    var s6 := s5.(respondingAeQualifier := a.respondingAeQualifier);
    ApplyFirstTwo(a);
    ResultSteps(s2, a.result);
    DiagnosticSteps(s3, a.resultSourceDiagnostic);
    OctetsSteps(s4, 4, a.respondingApTitle);
    OctetsSteps(s5, 5, a.respondingAeQualifier);
    ApplyAllFour(Step, [Field(Constructed, 0, VersionContent(a.protocolVersion))] + [Field(Constructed, 1, ContextContent(a.applicationContextName))],
      [Field(Constructed, 2, ResultContent(a.result))], [Field(Constructed, 3, DiagnosticContent(a.resultSourceDiagnostic))],
      OptionalOctetsField(4, a.respondingApTitle), OptionalOctetsField(5, a.respondingAeQualifier), Initial, s2, s3, s4, s5, s6);
  }

  /** The first two fields: the protocol version and the application-context name. */
  lemma ApplyFirstTwo(a: AareApdu)
    requires a.protocolVersion <= 1
    ensures ApplyAll(Step, [Field(Constructed, 0, VersionContent(a.protocolVersion))] + [Field(Constructed, 1, ContextContent(a.applicationContextName))], Initial)
      == Some(Initial.(protocolVersion := a.protocolVersion, applicationContextName := Some(a.applicationContextName)))
  {
    var s1 := Initial.(protocolVersion := a.protocolVersion);
    var s2 := s1.(applicationContextName := Some(a.applicationContextName));
    VersionRoundTrip(a.protocolVersion);
    VersionStepAt(Initial, VersionContent(a.protocolVersion), a.protocolVersion);
    ContextRoundTrip(a.applicationContextName);
    ContextStepAt(s1, ContextContent(a.applicationContextName), a.applicationContextName);
    ApplyAllTwo(Step, [Field(Constructed, 0, VersionContent(a.protocolVersion))], [Field(Constructed, 1, ContextContent(a.applicationContextName))], Initial, s1, s2);
  }

  lemma VersionStepAt(acc: AareLocals, body: seq<byte>, v: byte)
    requires ReadVersion(body) == Some(v)
    ensures Step(acc, Tag(ContextSpecific, Constructed, 0), body) == Some(acc.(protocolVersion := v))
  {
  }

  lemma ContextStepAt(acc: AareLocals, body: seq<byte>, x: ContextName)
    requires ReadContext(body) == Some(Some(x))
    ensures Step(acc, Tag(ContextSpecific, Constructed, 1), body) == Some(acc.(applicationContextName := Some(x)))
  {
  }

  lemma ResultSteps(acc: AareLocals, r: AssociationResult)
    ensures StepsTo(Step, [Field(Constructed, 2, ResultContent(r))], acc, acc.(result := Some(r)))
  {
    ResultRoundTrip(r);
    ResultStepAt(acc, ResultContent(r), r);
  }

  lemma ResultStepAt(acc: AareLocals, body: seq<byte>, r: AssociationResult)
    requires ReadResult(body) == Some(Some(r))
    ensures Step(acc, Tag(ContextSpecific, Constructed, 2), body) == Some(acc.(result := Some(r)))
  {
  }

  lemma DiagnosticSteps(acc: AareLocals, d: Diagnostic)
    ensures StepsTo(Step, [Field(Constructed, 3, DiagnosticContent(d))], acc, acc.(resultSourceDiagnostic := Some(d)))
  {
    DiagnosticRoundTrip(d);
    DiagnosticStepAt(acc, DiagnosticContent(d), d);
  }

  lemma DiagnosticStepAt(acc: AareLocals, body: seq<byte>, d: Diagnostic)
    requires ReadDiagnostic(body) == Some(Some(d))
    ensures Step(acc, Tag(ContextSpecific, Constructed, 3), body) == Some(acc.(resultSourceDiagnostic := Some(d)))
  {
  }

  /** The local of a title or qualifier field: 4 the responding AP title, 5 the AE qualifier. */
  function SetTitle(acc: AareLocals, n: nat, o: Option<seq<byte>>): AareLocals {
    if n == 4 then acc.(respondingApTitle := o) else acc.(respondingAeQualifier := o)
  }

  /** A title or qualifier field sets its own local, over a local still unset. */
  lemma OctetsSteps(acc: AareLocals, n: nat, o: Option<seq<byte>>)
    requires (n == 4 || n == 5) && (o.Some? ==> OctetsFit(o.value))
    requires o.None? ==> SetTitle(acc, n, o) == acc
    ensures StepsTo(Step, OptionalOctetsField(n, o), acc, SetTitle(acc, n, o))
  {
    if o.Some? {
      OctetsRoundTrip(o.value);
      TitleStepAt(acc, n, OctetsContent(o.value), o.value);
    }
  }

  lemma TitleStepAt(acc: AareLocals, n: nat, body: seq<byte>, t: seq<byte>)
    requires (n == 4 || n == 5) && ReadOctets(body) == Some(t)
    ensures Step(acc, Tag(ContextSpecific, Constructed, n), body) == Some(SetTitle(acc, n, Some(t)))
  {
  }

  lemma AcseSteps(acc: AareLocals, o: Option<byte>)
    requires acc.responderAcseRequirements == None
    ensures StepsTo(Step, OptionalAcseField(8, o), acc, acc.(responderAcseRequirements := o))
  {
    if o.Some? {
      AcseRoundTrip(o.value);
    }
  }

  lemma MechanismSteps(acc: AareLocals, o: Option<MechanismName>)
    requires acc.mechanismName == None
    ensures StepsTo(Step, OptionalMechanismField(9, o), acc, acc.(mechanismName := o))
  {
    if o.Some? {
      MechanismRoundTrip(o.value);
    }
  }

  lemma AuthSteps(acc: AareLocals, o: Option<AuthenticationValue>)
    requires acc.respondingAuthenticationValue == None && (o.Some? ==> AuthFits(o.value))
    ensures StepsTo(Step, OptionalAuthField(10, o), acc, acc.(respondingAuthenticationValue := o))
  {
    if o.Some? {
      AuthRoundTrip(o.value);
      AuthStepAt(acc, AuthContent(o.value), o.value);
    }
  }

  lemma AuthStepAt(acc: AareLocals, body: seq<byte>, av: AuthenticationValue)
    requires ReadAuth(body) == Some(Some(av))
    ensures Step(acc, Tag(ContextSpecific, Constructed, 10), body) == Some(acc.(respondingAuthenticationValue := Some(av)))
  {
  }

  lemma UserInformationSteps(acc: AareLocals, o: Option<I.InitiateResponse>)
    requires acc.userInformation == None
    requires o.Some? ==> C.Fits(o.value.negotiatedConformance)
    ensures StepsTo(Step, UserInformationField(o), acc, acc.(userInformation := o))
  {
    if o.Some? {
      var r := o.value;
      ResponseFits(r);
      OctetsRoundTrip(I.ResponseBytes(r));
      assert I.ResponseBytes(r) + [] == I.ResponseBytes(r);
      I.ResponseRoundTrip(r, []);
      UserInformationStepAt(acc, OctetsContent(I.ResponseBytes(r)), I.ResponseBytes(r), r);
    }
  }

  lemma UserInformationStepAt(acc: AareLocals, body: seq<byte>, octets: seq<byte>, r: I.InitiateResponse)
    requires ReadOctets(body) == Some(octets) && I.ParseResponse(octets) == Some((r, []))
    ensures Step(acc, Tag(ContextSpecific, Constructed, 30), body) == Some(acc.(userInformation := Some(r)))
  {
  }

  /** A result field with an unknown code clears the result, so the parse then fails for want of one. */
  lemma UnknownResultRefused(a: AareApdu, code: byte, rest: seq<byte>)
    requires Restorable(a) && code >= 3
    requires |FieldsBytes(FieldList(a) + [Field(Constructed, 2, [0x02, 0x01, code])])| <= 0xFFFF
    ensures ParseAareSpec(EncodeApplication(1, Constructed, FieldsBytes(FieldList(a) + [Field(Constructed, 2, [0x02, 0x01, code])])) + rest) == None
  {
    var extra: seq<FitField> := [Field(Constructed, 2, [0x02, 0x01, code])];
    ApplyFieldList(a);
    UnknownResultSteps(Locals(a), code);
    ApplyAllSnoc(Step, FieldList(a), extra, Initial, Locals(a), Locals(a).(result := None));
    ParseFields(FieldList(a) + extra, rest, Locals(a).(result := None));
  }

  lemma UnknownResultSteps(acc: AareLocals, code: byte)
    requires code >= 3
    ensures StepsTo(Step, [Field(Constructed, 2, [0x02, 0x01, code])], acc, acc.(result := None))
  {
    assert ReadResult([0x02, 0x01, code]) == Some(None);
    UnknownResultStepAt(acc, [0x02, 0x01, code]);
  }

  lemma UnknownResultStepAt(acc: AareLocals, body: seq<byte>)
    requires ReadResult(body) == Some(None)
    ensures Step(acc, Tag(ContextSpecific, Constructed, 2), body) == Some(acc.(result := None))
  {
  }

  /** A context-specific field with a number the parser does not know is skipped. */
  lemma UnknownFieldSkipped(a: AareApdu, junk: FitField, rest: seq<byte>)
    requires Restorable(a)
    requires 11 <= junk.number <= 29 && |FieldsBytes(FieldList(a) + [junk])| <= 0xFFFF
    ensures ParseAareSpec(EncodeApplication(1, Constructed, FieldsBytes(FieldList(a) + [junk])) + rest) == Some((Received(a), rest))
  {
    ApplyFieldList(a);
    UnknownSteps(Locals(a), junk);
    ApplyAllSnoc(Step, FieldList(a), [junk], Initial, Locals(a), Locals(a));
    ParseFields(FieldList(a) + [junk], rest, Locals(a));
  }

  lemma UnknownSteps(acc: AareLocals, junk: Field)
    requires 11 <= junk.number <= 29
    ensures StepsTo(Step, [junk], acc, acc)
  {
  }

  /** A field of another class than context-specific inside the AARE is an error. */
  lemma ForeignFieldRefused(c: TagClass, t: TagType, n: nat, body: seq<byte>, more: seq<byte>, rest: seq<byte>)
    requires c != ContextSpecific && n <= 30 && |body| <= 0xFFFF
    requires |TlvBytes(EncodeTag(c, t, n), body) + more| <= 0xFFFF
    ensures ParseAareSpec(EncodeApplication(1, Constructed, TlvBytes(EncodeTag(c, t, n), body) + more) + rest) == None
  {
    ApplicationRoundTrip(1, TlvBytes(EncodeTag(c, t, n), body) + more, rest, true);
    TlvRoundTrip(c, t, n, body, more);
  }

  /** An AARQ where an AARE is expected: APPLICATION 0 is refused. */
  lemma RequestTagRefused(content: seq<byte>, rest: seq<byte>)
    requires |content| <= 0xFFFF
    ensures ParseAareSpec(EncodeApplication(0, Constructed, content) + rest) == None
  {
    var len := EncodeLength(|content|);
    assert EncodeApplication(0, Constructed, content) + rest == [EncodeTag(Application, Constructed, 0)] + (len + content + rest);
    TagRoundTrip(Application, Constructed, 0, len + content + rest);
  }

  /** An accepted response to the library's client survives the round trip, and reads as accepted. */
  lemma NewAcceptedRoundTrip(context: ContextName, response: I.InitiateResponse)
    requires C.Fits(response.negotiatedConformance)
    ensures Encodable(NewAccepted(context, response))
    ensures ParseAareSpec(AareBytes(NewAccepted(context, response))) == Some((NewAccepted(context, response), []))
  {
    var a := NewAccepted(context, response);
    AcceptedSize(a);
    AareRoundTrip(a, []);
    assert AareBytes(a) + [] == AareBytes(a);
  }

  lemma AcceptedSize(a: AareApdu)
    requires a.userInformation.Some? && a == NewAccepted(a.applicationContextName, a.userInformation.value)
    ensures Encodable(a)
  {
    ResponseFits(a.userInformation.value);
    var f0: FitField := Field(Constructed, 0, VersionContent(a.protocolVersion));
    var f1: FitField := Field(Constructed, 1, ContextContent(a.applicationContextName));
    var f2: FitField := Field(Constructed, 2, ResultContent(a.result));
    var f3: FitField := Field(Constructed, 3, DiagnosticContent(a.resultSourceDiagnostic));
    var f4: FitField := Field(Constructed, 30, OctetsContent(I.ResponseBytes(a.userInformation.value)));
    assert FieldList(a) == [f0] + [f1] + [f2] + [f3] + [] + [f4];
    FieldsBytesSix([f0], [f1], [f2], [f3], [], [f4]);
    FieldsBytesSnoc([], f0);
    FieldsBytesSnoc([], f1);
    FieldsBytesSnoc([], f2);
    FieldsBytesSnoc([], f3);
    FieldsBytesSnoc([], f4);
  }
}
