/**
 * src/association/enums.rs: the code tables of the ACSE APDUs — association result,
 * ACSE service-user diagnostic, application-context name and authentication-mechanism
 * name (both object identifiers under 2.16.756.5.8), and the authentication value.
 */
module AcseEnums {
  import opened Bytes

  datatype AssociationResult = Accepted | RejectedPermanent | RejectedTransient

  /** The enum's `#[repr(u8)]` discriminant. */
  function ResultCode(r: AssociationResult): byte {
    match r
    case Accepted => 0
    case RejectedPermanent => 1
    case RejectedTransient => 2
  }

  /** `AssociationResult::from_u8`. */
  function ResultFromByte(v: byte): (r: Option<AssociationResult>)
    ensures r.Some? <==> v < 3
  {
    if v == 0 then Some(Accepted)
    else if v == 1 then Some(RejectedPermanent)
    else if v == 2 then Some(RejectedTransient)
    else None
  }

  /** The table is a bijection between the three results and the codes 0-2. */
  lemma ResultCodes(r: AssociationResult, v: byte)
    ensures ResultFromByte(ResultCode(r)) == Some(r)
    ensures ResultFromByte(v).Some? ==> ResultCode(ResultFromByte(v).value) == v
  {
  }

  datatype Diagnostic =
    | Null
    | NoReasonGiven
    | ApplicationContextNameNotSupported
    | AuthenticationMechanismNameNotRecognised
    | AuthenticationMechanismNameRequired
    | AuthenticationFailure
    | AuthenticationRequired

  /** `AcseServiceUserDiagnostics` discriminants. */
  function DiagnosticCode(d: Diagnostic): byte {
    match d
    case Null => 0
    case NoReasonGiven => 1
    case ApplicationContextNameNotSupported => 2
    case AuthenticationMechanismNameNotRecognised => 11
    case AuthenticationMechanismNameRequired => 12
    case AuthenticationFailure => 13
    case AuthenticationRequired => 14
  }

  /** `AcseServiceUserDiagnostics::from_u8`: the codes 3 to 10 and above 14 are refused. */
  function DiagnosticFromByte(v: byte): (r: Option<Diagnostic>)
    ensures r.Some? <==> v <= 2 || 11 <= v <= 14
  {
    match v
    case 0 => Some(Null)
    case 1 => Some(NoReasonGiven)
    case 2 => Some(ApplicationContextNameNotSupported)
    case 11 => Some(AuthenticationMechanismNameNotRecognised)
    case 12 => Some(AuthenticationMechanismNameRequired)
    case 13 => Some(AuthenticationFailure)
    case 14 => Some(AuthenticationRequired)
    case _ => None
  }

  lemma DiagnosticCodes(d: Diagnostic, v: byte)
    ensures DiagnosticFromByte(DiagnosticCode(d)) == Some(d)
    ensures DiagnosticFromByte(v).Some? ==> DiagnosticCode(DiagnosticFromByte(v).value) == v
  {
  }

  datatype ContextName =
    | LogicalNameReferencing
    | ShortNameReferencing
    | LogicalNameReferencingWithCiphering
    | ShortNameReferencingWithCiphering

  /** The encoded arcs 2.16.756.5.8.1, common to the four application-context names. */
  const ContextPrefix: seq<byte> := [0x60, 0x85, 0x74, 0x05, 0x08, 0x01]

  /** The encoded arcs 2.16.756.5.8.2, common to the eight mechanism names. */
  const MechanismPrefix: seq<byte> := [0x60, 0x85, 0x74, 0x05, 0x08, 0x02]

  /** `ApplicationContextName::oid_bytes`: the prefix and a last arc of 1 to 4. */
  function ContextOid(x: ContextName): (oid: seq<byte>)
    ensures |oid| == 7 && oid[..6] == ContextPrefix
  {
    match x
    case LogicalNameReferencing => ContextPrefix + [0x01]
    case ShortNameReferencing => ContextPrefix + [0x02]
    case LogicalNameReferencingWithCiphering => ContextPrefix + [0x03]
    case ShortNameReferencingWithCiphering => ContextPrefix + [0x04]
  }

  /** `ApplicationContextName::from_oid_bytes`: exactly the four identifiers, any other octets give `None`. */
  function ContextFromOid(b: seq<byte>): (r: Option<ContextName>)
    ensures r.Some? ==> |b| == 7 && b[..6] == ContextPrefix
  {
    if |b| != 7 || b[..6] != ContextPrefix then None
    else if b[6] == 1 then Some(LogicalNameReferencing)
    else if b[6] == 2 then Some(ShortNameReferencing)
    else if b[6] == 3 then Some(LogicalNameReferencingWithCiphering)
    else if b[6] == 4 then Some(ShortNameReferencingWithCiphering)
    else None
  }

  /** The identifier table is a partial bijection: each name reads back, and only the table's identifiers are read. */
  lemma {:induction false} ContextOidRoundTrip(x: ContextName, b: seq<byte>)
    ensures ContextFromOid(ContextOid(x)) == Some(x)
    ensures ContextFromOid(b).Some? ==> ContextOid(ContextFromOid(b).value) == b
  {
    var oid := ContextOid(x);
    assert oid == oid[..6] + [oid[6]];
    if ContextFromOid(b).Some? {
      assert b == b[..6] + [b[6]];
    }
  }

  /** `uses_ciphering`. */
  predicate UsesCiphering(x: ContextName) {
    x == LogicalNameReferencingWithCiphering || x == ShortNameReferencingWithCiphering
  }

  /** `uses_logical_name`. */
  predicate UsesLogicalName(x: ContextName) {
    x == LogicalNameReferencing || x == LogicalNameReferencingWithCiphering
  }

  /** In terms of the identifier: ciphering is the last arcs 3 and 4, logical names the odd arcs. */
  lemma ContextProperties(x: ContextName)
    ensures UsesCiphering(x) <==> ContextOid(x)[6] >= 3
    ensures UsesLogicalName(x) <==> ContextOid(x)[6] % 2 == 1
  {
  }

  /** The examples of the library: LN is `.1.1` without ciphering, LN with ciphering `.1.3`, SN `.1.2`. */
  lemma ContextExamples()
    ensures ContextOid(LogicalNameReferencing) == [0x60, 0x85, 0x74, 0x05, 0x08, 0x01, 0x01]
    ensures ContextOid(LogicalNameReferencingWithCiphering) == [0x60, 0x85, 0x74, 0x05, 0x08, 0x01, 0x03]
    ensures ContextOid(ShortNameReferencing) == [0x60, 0x85, 0x74, 0x05, 0x08, 0x01, 0x02]
    ensures !UsesCiphering(LogicalNameReferencing) && UsesLogicalName(LogicalNameReferencing)
    ensures UsesCiphering(LogicalNameReferencingWithCiphering) && UsesLogicalName(LogicalNameReferencingWithCiphering)
    ensures !UsesCiphering(ShortNameReferencing) && !UsesLogicalName(ShortNameReferencing)
    ensures ContextFromOid([0x00, 0x00, 0x00]) == None
  {
  }

  datatype MechanismName =
    | LowestLevelSecurity
    | LowLevelSecurity
    | HighLevelSecurity
    | HighLevelSecurityMd5
    | HighLevelSecuritySha1
    | HighLevelSecurityGmac
    | HighLevelSecuritySha256
    | HighLevelSecurityEcdsa

  /** The last arc of each mechanism name: 0 (none) to 7 (HLS-ECDSA). */
  function MechanismArc(m: MechanismName): (a: byte)
    ensures a <= 7
  {
    match m
    case LowestLevelSecurity => 0
    case LowLevelSecurity => 1
    case HighLevelSecurity => 2
    case HighLevelSecurityMd5 => 3
    case HighLevelSecuritySha1 => 4
    case HighLevelSecurityGmac => 5
    case HighLevelSecuritySha256 => 6
    case HighLevelSecurityEcdsa => 7
  }

  /** `MechanismName::oid_bytes`. */
  function MechanismOid(m: MechanismName): (oid: seq<byte>)
    ensures |oid| == 7 && oid[..6] == MechanismPrefix
  {
    MechanismPrefix + [MechanismArc(m)]
  }

  /** `MechanismName::from_oid_bytes`. */
  function MechanismFromOid(b: seq<byte>): (r: Option<MechanismName>)
    ensures r.Some? <==> |b| == 7 && b[..6] == MechanismPrefix && b[6] <= 7
  {
    if |b| != 7 || b[..6] != MechanismPrefix then None
    else
      match b[6]
      case 0 => Some(LowestLevelSecurity)
      case 1 => Some(LowLevelSecurity)
      case 2 => Some(HighLevelSecurity)
      case 3 => Some(HighLevelSecurityMd5)
      case 4 => Some(HighLevelSecuritySha1)
      case 5 => Some(HighLevelSecurityGmac)
      case 6 => Some(HighLevelSecuritySha256)
      case 7 => Some(HighLevelSecurityEcdsa)
      case _ => None
  }

  lemma {:induction false} MechanismOidRoundTrip(m: MechanismName, b: seq<byte>)
    ensures MechanismFromOid(MechanismOid(m)) == Some(m)
    ensures MechanismFromOid(b).Some? ==> MechanismOid(MechanismFromOid(b).value) == b
  {
    assert MechanismOid(m)[6] == MechanismArc(m);
    if MechanismFromOid(b).Some? {
      assert b == b[..6] + [b[6]];
    }
  }

  /** No identifier names both a context and a mechanism. */
  lemma OidTablesDisjoint(x: ContextName, m: MechanismName)
    ensures ContextOid(x) != MechanismOid(m)
    ensures MechanismFromOid(ContextOid(x)) == None && ContextFromOid(MechanismOid(m)) == None
  {
    assert ContextOid(x)[5] != MechanismOid(m)[5];
    assert ContextOid(x)[..6][5] == 1;
    assert MechanismOid(m)[..6][5] == 2;
  }

  /** `AuthenticationValue`: a password as a character string, or a challenge as a bit string. */
  datatype AuthenticationValue = CharString(bytes: seq<byte>) | BitString(bytes: seq<byte>)
}
