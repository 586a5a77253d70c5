/**
 * The pieces the AARQ, AARE, RLRQ and RLRE codecs of src/association/ share: a context-specific
 * field is a BER identifier, a definite length and the content; the encoders append such fields
 * one after the other inside an APPLICATION identifier, and the parsers walk them in a loop,
 * dispatching on the tag number.
 */
module AcseFields {
  import opened Bytes
  import opened Wire
  import opened Ber
  import opened AcseEnums

  /** The size of a TLV whose content has n octets: identifier, length octets, content. */
  function TlvSize(n: nat): nat {
    1 + (if n <= 127 then 1 else if n <= 255 then 2 else 3) + n
  }

  lemma TlvSizeOf(tag: byte, content: seq<byte>)
    requires |content| <= 0xFFFF
    ensures |TlvBytes(tag, content)| == TlvSize(|content|)
  {
  }

  /** A context-specific field: constructed or primitive, its tag number, its content. */
  datatype Field = Field(kind: TagType, number: nat, content: seq<byte>)

  /** A field `encode_context_specific` accepts: a one-octet tag number and a two-octet length. */
  type FitField = f: Field | f.number <= 30 && |f.content| <= 0xFFFF witness Field(Primitive, 0, [])

  function FieldBytes(f: FitField): seq<byte> {
    EncodeContextSpecific(f.number, f.kind, f.content)
  }

  /** The fields appended one after the other, as the encoders' `content.extend(..)` calls do. */
  function FieldsBytes(fs: seq<FitField>): seq<byte>
    decreases |fs|
  {
    if |fs| == 0 then [] else FieldsBytes(fs[..|fs| - 1]) + FieldBytes(fs[|fs| - 1])
  }

  lemma FieldsBytesSnoc(fs: seq<FitField>, f: FitField)
    ensures FieldsBytes(fs + [f]) == FieldsBytes(fs) + FieldBytes(f)
  {
    assert (fs + [f])[..|fs|] == fs;
  }

  lemma {:induction false} FieldsBytesCons(f: FitField, fs: seq<FitField>)
    ensures FieldsBytes([f] + fs) == FieldBytes(f) + FieldsBytes(fs)
    decreases |fs|
  {
    if |fs| == 0 {
      assert [f] + fs == [f];
      assert [f][..0] == [];
    } else {
      var init := fs[..|fs| - 1];
      var last := fs[|fs| - 1];
      var whole := [f] + fs;
      assert whole[..|whole| - 1] == [f] + init;
      assert whole[|whole| - 1] == last;
      FieldsBytesCons(f, init);
      var a, b, c := FieldBytes(f), FieldsBytes(init), FieldBytes(last);
      assert FieldsBytes(whole) == (a + b) + c;
      assert FieldsBytes(fs) == b + c;
      Regroup(a, b, c);
    }
  }

  /** The loop body's first half: an identifier, a length, and as many content octets (`Eof` when short). */
  function ParseTlv(s: seq<byte>): (r: Option<(Tag, seq<byte>, seq<byte>)>)
    ensures r.Some? ==> |r.value.2| < |s|
  {
    match ParseTag(s)
    case Err(_) => None
    case Ok((tag, s1)) =>
      match ParseBody(s1)
      case Err(_) => None
      case Ok((body, s2)) => Some((tag, body, s2))
  }

  /** Any TLV with a one-octet identifier reads back as its tag, its content and what follows. */
  lemma TlvRoundTrip(c: TagClass, t: TagType, n: nat, content: seq<byte>, rest: seq<byte>)
    requires n <= 30 && |content| <= 0xFFFF
    ensures ParseTlv(TlvBytes(EncodeTag(c, t, n), content) + rest) == Some((Tag(c, t, n), content, rest))
  {
    var len := EncodeLength(|content|);
    assert TlvBytes(EncodeTag(c, t, n), content) + rest == [EncodeTag(c, t, n)] + (len + content + rest);
    TagRoundTrip(c, t, n, len + content + rest);
    BodyRoundTrip(content, rest);
  }

  lemma FieldRoundTrip(f: FitField, rest: seq<byte>)
    ensures ParseTlv(FieldBytes(f) + rest) == Some((Tag(ContextSpecific, f.kind, f.number), f.content, rest))
  {
    TlvRoundTrip(ContextSpecific, f.kind, f.number, f.content, rest);
  }

  /** The parse loop `while !content.is_empty()` with its body `step` as a function: `None` is an error. */
  function FoldFields<A>(step: (A, Tag, seq<byte>) -> Option<A>, s: seq<byte>, acc: A): Option<A>
    decreases |s|
  {
    if |s| == 0 then Some(acc)
    else
      match ParseTlv(s)
      case None => None
      case Some((tag, body, rest)) =>
        match step(acc, tag, body)
        case None => None
        case Some(next) => FoldFields(step, rest, next)
  }

  /** The same loop over fields already split apart. */
  function ApplyAll<A>(step: (A, Tag, seq<byte>) -> Option<A>, fs: seq<Field>, acc: A): Option<A>
    decreases |fs|
  {
    if |fs| == 0 then Some(acc)
    else
      match step(acc, Tag(ContextSpecific, fs[0].kind, fs[0].number), fs[0].content)
      case None => None
      case Some(next) => ApplyAll(step, fs[1..], next)
  }

  /** Walking the encoded fields is applying the loop body to each field in turn. */
  lemma {:induction false} FoldFieldsBytes<A>(step: (A, Tag, seq<byte>) -> Option<A>, fs: seq<FitField>, acc: A)
    ensures FoldFields(step, FieldsBytes(fs), acc) == ApplyAll(step, fs, acc)
    decreases |fs|
  {
    if |fs| > 0 {
      var f := fs[0];
      assert [f] + fs[1..] == fs;
      FieldsBytesCons(f, fs[1..]);
      FieldRoundTrip(f, FieldsBytes(fs[1..]));
      assert |FieldBytes(f)| > 0;
      match step(acc, Tag(ContextSpecific, f.kind, f.number), f.content)
      case None =>
      case Some(next) => FoldFieldsBytes(step, fs[1..], next);
    }
  }

  /** Walking encoded fields followed by more octets: the fields first, then the loop goes on over the rest. */
  lemma {:induction false} FoldFieldsThen<A>(step: (A, Tag, seq<byte>) -> Option<A>, fs: seq<FitField>, tail: seq<byte>, acc: A, mid: A)
    requires ApplyAll(step, fs, acc) == Some(mid)
    ensures FoldFields(step, FieldsBytes(fs) + tail, acc) == FoldFields(step, tail, mid)
    decreases |fs|
  {
    if |fs| == 0 {
      assert FieldsBytes(fs) + tail == tail;
    } else {
      var f := fs[0];
      assert [f] + fs[1..] == fs;
      FieldsBytesCons(f, fs[1..]);
      assert FieldsBytes(fs) + tail == FieldBytes(f) + (FieldsBytes(fs[1..]) + tail);
      FieldRoundTrip(f, FieldsBytes(fs[1..]) + tail);
      var next := step(acc, Tag(ContextSpecific, f.kind, f.number), f.content);
      FoldFieldsThen(step, fs[1..], tail, next.value, mid);
    }
  }

  /** An optional field takes the locals from `mid` to `next`: absent it changes nothing, present it is one step. */
  ghost predicate StepsTo<A>(step: (A, Tag, seq<byte>) -> Option<A>, o: seq<Field>, mid: A, next: A) {
    |o| <= 1
    && (|o| == 0 ==> next == mid)
    && (|o| == 1 ==> step(mid, Tag(ContextSpecific, o[0].kind, o[0].number), o[0].content) == Some(next))
  }

  /** One more optional field. */
  lemma {:induction false} ApplyAllSnoc<A>(step: (A, Tag, seq<byte>) -> Option<A>, fs: seq<Field>, o: seq<Field>, acc: A, mid: A, next: A)
    requires ApplyAll(step, fs, acc) == Some(mid)
    requires StepsTo(step, o, mid, next)
    ensures ApplyAll(step, fs + o, acc) == Some(next)
    decreases |fs|
  {
    if |fs| == 0 {
      assert fs + o == o;
      if |o| == 1 {
        assert o[1..] == [];
      }
    } else {
      assert (fs + o)[0] == fs[0];
      assert (fs + o)[1..] == fs[1..] + o;
      var s := step(acc, Tag(ContextSpecific, fs[0].kind, fs[0].number), fs[0].content);
      ApplyAllSnoc(step, fs[1..], o, s.value, mid, next);
    }
  }

  /** Four more optional fields, one after the other. */
  lemma ApplyAllFour<A>(step: (A, Tag, seq<byte>) -> Option<A>, fs: seq<Field>, o1: seq<Field>, o2: seq<Field>, o3: seq<Field>, o4: seq<Field>,
                        acc: A, s0: A, s1: A, s2: A, s3: A, s4: A)
    requires ApplyAll(step, fs, acc) == Some(s0)
    requires StepsTo(step, o1, s0, s1) && StepsTo(step, o2, s1, s2) && StepsTo(step, o3, s2, s3) && StepsTo(step, o4, s3, s4)
    ensures ApplyAll(step, fs + o1 + o2 + o3 + o4, acc) == Some(s4)
  {
    ApplyAllSnoc(step, fs, o1, acc, s0, s1);
    ApplyAllSnoc(step, fs + o1, o2, acc, s1, s2);
    ApplyAllSnoc(step, fs + o1 + o2, o3, acc, s2, s3);
    ApplyAllSnoc(step, fs + o1 + o2 + o3, o4, acc, s3, s4);
  }

  /** The first two fields of an APDU, from the parser's initial locals. */
  lemma ApplyAllTwo<A>(step: (A, Tag, seq<byte>) -> Option<A>, o1: seq<Field>, o2: seq<Field>, acc: A, s1: A, s2: A)
    requires StepsTo(step, o1, acc, s1) && StepsTo(step, o2, s1, s2)
    ensures ApplyAll(step, o1 + o2, acc) == Some(s2)
  {
    ApplyAllSnoc(step, [], o1, acc, acc, s1);
    assert [] + o1 == o1;
    ApplyAllSnoc(step, o1, o2, acc, s1, s2);
  }

  /** `protocol-version`: one bit string octet with seven unused bits, 0x80 for version 0 and 0x00 otherwise. */
  function VersionContent(v: byte): (c: seq<byte>)
    ensures |c| == 4
  {
    EncodeBitString(if v == 0 then [0x80] else [0x00], 7)
  }

  /** Reading it back: the top bit of the first octet set means version 0, anything else version 1. */
  function ReadVersion(body: seq<byte>): (r: Option<byte>)
    ensures r.Some? ==> r.value <= 1
  {
    match ParseBitString(body)
    case Err(_) => None
    case Ok(((bits, _), _)) => Some(if |bits| > 0 && bits[0] >= 0x80 then 0 else 1)
  }

  /** Versions 0 and 1 read back; every other version is sent as version 1. */
  lemma VersionRoundTrip(v: byte)
    ensures ReadVersion(VersionContent(v)) == Some(if v == 0 then 0 else 1)
  {
    var bits: seq<byte> := if v == 0 then [0x80] else [0x00];
    assert VersionContent(v) + [] == VersionContent(v);
    BitStringRoundTrip(bits, 7, []);
  }

  /** `application-context-name`: the object identifier of the name. */
  function ContextContent(x: ContextName): (c: seq<byte>)
    ensures |c| == 9
  {
    EncodeObjectIdentifier(ContextOid(x))
  }

  /** Reading it back: `None` inside for an identifier that names no context, which the caller stores as it is. */
  function ReadContext(body: seq<byte>): Option<Option<ContextName>> {
    match ParseObjectIdentifier(body)
    case Err(_) => None
    case Ok((oid, _)) => Some(ContextFromOid(oid))
  }

  lemma ContextRoundTrip(x: ContextName)
    ensures ReadContext(ContextContent(x)) == Some(Some(x))
  {
    assert ContextContent(x) + [] == ContextContent(x);
    ObjectIdentifierRoundTrip(ContextOid(x), []);
    ContextOidRoundTrip(x, ContextOid(x));
  }

  /** `mechanism-name`: the object identifier of the mechanism. */
  function MechanismContent(m: MechanismName): (c: seq<byte>)
    ensures |c| == 9
  {
    EncodeObjectIdentifier(MechanismOid(m))
  }

  function ReadMechanism(body: seq<byte>): Option<Option<MechanismName>> {
    match ParseObjectIdentifier(body)
    case Err(_) => None
    case Ok((oid, _)) => Some(MechanismFromOid(oid))
  }

  lemma MechanismRoundTrip(m: MechanismName)
    ensures ReadMechanism(MechanismContent(m)) == Some(Some(m))
  {
    assert MechanismContent(m) + [] == MechanismContent(m);
    ObjectIdentifierRoundTrip(MechanismOid(m), []);
    MechanismOidRoundTrip(m, MechanismOid(m));
  }

  /** A title, a qualifier or the user information: an octet string whose TLV still fits a two-octet length. */
  predicate OctetsFit(t: seq<byte>) {
    |t| <= 0xFFFB
  }

  function OctetsContent(t: seq<byte>): (c: seq<byte>)
    requires OctetsFit(t)
    ensures |c| == TlvSize(|t|) && |c| <= 0xFFFF
  {
    EncodeOctetString(t)
  }

  /** The bound is exact: one octet more and the octet string's TLV no longer fits a two-octet length. */
  lemma OctetsFitExact(t: seq<byte>)
    ensures OctetsFit(t) <==> |t| <= 0xFFFF && TlvSize(|t|) <= 0xFFFF
  {
  }

  function ReadOctets(body: seq<byte>): Option<seq<byte>> {
    match ParseOctetString(body)
    case Err(_) => None
    case Ok((t, _)) => Some(t)
  }

  lemma OctetsRoundTrip(t: seq<byte>)
    requires OctetsFit(t)
    ensures ReadOctets(OctetsContent(t)) == Some(t)
  {
    assert OctetsContent(t) + [] == OctetsContent(t);
    OctetStringRoundTrip(t, []);
  }

  /** `acse-requirements`: a bit string of the one octet, no unused bits. */
  function AcseContent(b: byte): (c: seq<byte>)
    ensures |c| == 4
  {
    EncodeBitString([b], 0)
  }

  /** Reading it back: an empty bit string leaves the requirements unset. */
  function ReadAcse(body: seq<byte>): Option<Option<byte>> {
    match ParseBitString(body)
    case Err(_) => None
    case Ok(((bits, _), _)) => Some(if |bits| > 0 then Some(bits[0]) else None)
  }

  lemma AcseRoundTrip(b: byte)
    ensures ReadAcse(AcseContent(b)) == Some(Some(b))
  {
    assert AcseContent(b) + [] == AcseContent(b);
    BitStringRoundTrip([b], 0, []);
  }

  lemma Pow256UpToFour(n: nat)
    requires n <= 4
    ensures Pow256(n) <= 0x1_0000_0000
  {
    if n > 0 {
      Pow256UpToFour(n - 1);
    }
  }

  /**
   * An invocation-id field: the INTEGER identifier 0x02, a length, big-endian value octets. A
   * missing first or second octet is an error; another identifier, a length above 4, or fewer
   * value octets than the length leave the id unset.
   */
  function ReadInvocationId(body: seq<byte>): (r: Option<Option<u32>>)
    ensures r.Some? && r.value.Some? ==> |body| >= 2 && body[0] == 0x02 && body[1] <= 4 && |body| >= 2 + body[1]
  {
    match TakeByte(body)
    case None => None
    case Some((t, s1)) =>
      if t != 0x02 then Some(None)
      else
        match TakeByte(s1)
        case None => None
        case Some((n, s2)) =>
          if n <= 4 && |s2| >= n then
            Pow256UpToFour(n);
            Some(Some(BeValue(s2[..n])))
          else Some(None)
  }

  /** The field's value in the cases the parser distinguishes. */
  lemma InvocationIdCases(x: byte, y: byte, rest: seq<byte>)
    ensures ReadInvocationId([]) == None && ReadInvocationId([0x02]) == None
    ensures x != 0x02 ==> ReadInvocationId([x] + rest) == Some(None)
    ensures ReadInvocationId([0x02, 0x01, y] + rest) == Some(Some(y))
    ensures ReadInvocationId([0x02, 0x05] + rest) == Some(None)
  {
    TakeByteOf(x, rest);
    assert [0x02, 0x01, y] + rest == [0x02] + ([0x01] + ([y] + rest));
    TakeByteOf(0x02, [0x01] + ([y] + rest));
    TakeByteOf(0x01, [y] + rest);
    assert ([y] + rest)[..1] == [y];
    assert BeValue([y]) == y by {
      assert [y][..0] == [];
    }
    assert [0x02, 0x05] + rest == [0x02] + ([0x05] + rest);
    TakeByteOf(0x02, [0x05] + rest);
  }

  /**
   * The value loop `value = (value << 8) | byte` over at most four octets. The shifted value is
   * below 2^24 before each step, so the shift and the or are the multiplication and the addition.
   */
  method InvocationIdValue(digits: seq<byte>) returns (value: u32)
    requires |digits| <= 4
    ensures value == BeValue(digits)
  {
    value := 0;
    Pow256UpToFour(|digits|);
    for i := 0 to |digits|
      invariant value == BeValue(digits[..i])
    {
      BeValueSnoc(digits, i);
      Pow256UpToFour(i + 1);
      value := value * 256 + digits[i];
    }
    assert digits[..|digits|] == digits;
  }

  /** An authentication value whose nested TLVs fit a two-octet length. */
  predicate AuthFits(av: AuthenticationValue) {
    match av
    case CharString(p) => |p| <= 0xFFFB
    case BitString(b) => |b| <= 0xFFF6
  }

  /** The authentication-value CHOICE: `[0]` primitive for characters, `[1]` primitive holding a bit string. */
  function AuthContent(av: AuthenticationValue): (c: seq<byte>)
    requires AuthFits(av)
    ensures |c| <= 0xFFFF
  {
    match av
    case CharString(p) => EncodeContextSpecific(0, Primitive, p)
    case BitString(b) => EncodeContextSpecific(1, Primitive, EncodeBitString(b, 0))
  }

  /**
   * Reading the CHOICE: a class other than context-specific, or a short content, is an error; `[0]`
   * primitive is the characters, `[1]` primitive a bit string; any other choice leaves the value unset.
   */
  function ReadAuth(body: seq<byte>): Option<Option<AuthenticationValue>> {
    match ParseTag(body)
    case Err(_) => None
    case Ok((t, s1)) =>
      if t.tagClass != ContextSpecific then None
      else
        match ParseBody(s1)
        case Err(_) => None
        case Ok((c, _)) => ReadAuthChoice(t, c)
  }

  function ReadAuthChoice(t: Tag, c: seq<byte>): Option<Option<AuthenticationValue>> {
    if t.number == 0 && t.kind == Primitive then Some(Some(CharString(c)))
    else if t.number == 1 && t.kind == Primitive then
      match ParseBitString(c)
      case Err(_) => None
      case Ok(((bits, _), _)) => Some(Some(BitString(bits)))
    else Some(None)
  }

  lemma AuthRoundTrip(av: AuthenticationValue)
    requires AuthFits(av)
    ensures ReadAuth(AuthContent(av)) == Some(Some(av))
  {
    match av
    case CharString(p) => CharAuthRoundTrip(p);
    case BitString(b) => BitAuthRoundTrip(b);
  }

  /** A context-specific TLV on its own splits into its identifier and its content. */
  lemma ContextParts(n: nat, t: TagType, c: seq<byte>)
    requires n <= 30 && |c| <= 0xFFFF
    ensures ParseTag(EncodeContextSpecific(n, t, c)) == Ok((Tag(ContextSpecific, t, n), EncodeLength(|c|) + c))
    ensures ParseBody(EncodeLength(|c|) + c) == Ok((c, []))
  {
    var len := EncodeLength(|c|);
    assert EncodeContextSpecific(n, t, c) == [EncodeTag(ContextSpecific, t, n)] + (len + c);
    TagRoundTrip(ContextSpecific, t, n, len + c);
    assert len + c + [] == len + c;
    BodyRoundTrip(c, []);
  }

  lemma CharAuthRoundTrip(p: seq<byte>)
    requires |p| <= 0xFFFB
    ensures ReadAuth(AuthContent(CharString(p))) == Some(Some(CharString(p)))
  {
    ContextParts(0, Primitive, p);
  }

  lemma BitAuthRoundTrip(b: seq<byte>)
    requires |b| <= 0xFFF6
    ensures ReadAuth(AuthContent(BitString(b))) == Some(Some(BitString(b)))
  {
    var bs := EncodeBitString(b, 0);
    BitStringSize(b);
    assert AuthContent(BitString(b)) == EncodeContextSpecific(1, Primitive, bs);
    ContextParts(1, Primitive, bs);
    BitChoice(b);
  }

  lemma BitChoice(b: seq<byte>)
    requires |b| < 0xFFFF
    ensures ReadAuthChoice(Tag(ContextSpecific, Primitive, 1), EncodeBitString(b, 0)) == Some(Some(BitString(b)))
  {
    BitStringAlone(b);
  }

  lemma BitStringSize(b: seq<byte>)
    requires |b| <= 0xFFF6
    ensures |EncodeBitString(b, 0)| <= 0xFFFB
  {
  }

  lemma BitStringAlone(b: seq<byte>)
    requires |b| < 0xFFFF
    ensures ParseBitString(EncodeBitString(b, 0)) == Ok(((b, 0), []))
  {
    assert EncodeBitString(b, 0) + [] == EncodeBitString(b, 0);
    BitStringRoundTrip(b, 0, []);
  }

  /** The optional fields as the encoders append them: nothing when absent. */
  function OptionalOctetsField(n: nat, o: Option<seq<byte>>): (fs: seq<FitField>)
    requires n <= 30 && (o.Some? ==> OctetsFit(o.value))
    ensures |fs| <= 1
  {
    if o.Some? then [Field(Constructed, n, OctetsContent(o.value))] else []
  }

  function OptionalAcseField(n: nat, o: Option<byte>): (fs: seq<FitField>)
    requires n <= 30
    ensures |fs| <= 1
  {
    if o.Some? then [Field(Primitive, n, AcseContent(o.value))] else []
  }

  function OptionalMechanismField(n: nat, o: Option<MechanismName>): (fs: seq<FitField>)
    requires n <= 30
    ensures |fs| <= 1
  {
    if o.Some? then [Field(Primitive, n, MechanismContent(o.value))] else []
  }

  function OptionalAuthField(n: nat, o: Option<AuthenticationValue>): (fs: seq<FitField>)
    requires n <= 30 && (o.Some? ==> AuthFits(o.value))
    ensures |fs| <= 1
  {
    if o.Some? then [Field(Constructed, n, AuthContent(o.value))] else []
  }
  /**
   * The APPLICATION envelope of an APDU: the class and number must match (and, where the
   * parser checks it, the constructed bit), then a length and that many octets of content.
   */
  function ParseApplication(s: seq<byte>, n: nat, checkConstructed: bool): (r: Option<(seq<byte>, seq<byte>)>)
    ensures r.Some? ==> |s| >= 1 && ParseTag(s).Ok? && ParseTag(s).value.0.tagClass == Application && ParseTag(s).value.0.number == n
  {
    match ParseTag(s)
    case Err(_) => None
    case Ok((tag, s1)) =>
      if tag.tagClass != Application || tag.number != n then None
      else if checkConstructed && tag.kind != Constructed then None
      else
        match ParseBody(s1)
        case Err(_) => None
        case Ok((content, rest)) => Some((content, rest))
  }

  lemma ApplicationRoundTrip(n: nat, content: seq<byte>, rest: seq<byte>, checkConstructed: bool)
    requires n <= 30 && |content| <= 0xFFFF
    ensures ParseApplication(EncodeApplication(n, Constructed, content) + rest, n, checkConstructed) == Some((content, rest))
  {
    var len := EncodeLength(|content|);
    assert EncodeApplication(n, Constructed, content) + rest == [EncodeTag(Application, Constructed, n)] + (len + content + rest);
    TagRoundTrip(Application, Constructed, n, len + content + rest);
    BodyRoundTrip(content, rest);
  }

  /** The octets of two runs of fields, one after the other. */
  lemma {:induction false} FieldsBytesAppend(xs: seq<FitField>, ys: seq<FitField>)
    ensures FieldsBytes(xs + ys) == FieldsBytes(xs) + FieldsBytes(ys)
    decreases |ys|
  {
    if |ys| == 0 {
      assert xs + ys == xs;
    } else {
      var init := ys[..|ys| - 1];
      var last := ys[|ys| - 1];
      calc {
        FieldsBytes(xs + ys);
        { assert xs + ys == (xs + init) + [last]; }
        FieldsBytes((xs + init) + [last]);
        { FieldsBytesSnoc(xs + init, last); }
        FieldsBytes(xs + init) + FieldBytes(last);
        { FieldsBytesAppend(xs, init); }
        FieldsBytes(xs) + FieldsBytes(init) + FieldBytes(last);
        { Regroup(FieldsBytes(xs), FieldsBytes(init), FieldBytes(last)); }
        FieldsBytes(xs) + (FieldsBytes(init) + FieldBytes(last));
        { FieldsBytesSnoc(init, last); assert init + [last] == ys; }
        FieldsBytes(xs) + FieldsBytes(ys);
      }
    }
  }

  /** Five runs of fields: the octets of the whole are the octets of the runs. */
  lemma FieldsBytesFive(l1: seq<FitField>, l2: seq<FitField>, l3: seq<FitField>, l4: seq<FitField>, l5: seq<FitField>)
    ensures FieldsBytes(l1 + l2 + l3 + l4 + l5)
      == FieldsBytes(l1) + FieldsBytes(l2) + FieldsBytes(l3) + FieldsBytes(l4) + FieldsBytes(l5)
  {
    FieldsBytesAppend(l1 + l2 + l3 + l4, l5);
    FieldsBytesAppend(l1 + l2 + l3, l4);
    FieldsBytesAppend(l1 + l2, l3);
    FieldsBytesAppend(l1, l2);
  }

  /** Six runs of fields. */
  lemma FieldsBytesSix(l1: seq<FitField>, l2: seq<FitField>, l3: seq<FitField>, l4: seq<FitField>, l5: seq<FitField>, l6: seq<FitField>)
    ensures FieldsBytes(l1 + l2 + l3 + l4 + l5 + l6)
      == FieldsBytes(l1) + FieldsBytes(l2) + FieldsBytes(l3) + FieldsBytes(l4) + FieldsBytes(l5) + FieldsBytes(l6)
  {
    FieldsBytesAppend(l1 + l2 + l3 + l4 + l5, l6);
    FieldsBytesFive(l1, l2, l3, l4, l5);
  }

  /** `if let Some(..) = .. { content.extend(..) }`: the field's octets appended when it is present. */
  method AppendOptional(content: seq<byte>, o: seq<FitField>) returns (extended: seq<byte>)
    requires |o| <= 1
    ensures extended == content + FieldsBytes(o)
  {
    extended := content;
    if |o| == 1 {
      FieldsBytesSnoc([], o[0]);
      assert [] + [o[0]] == o;
      extended := extended + FieldBytes(o[0]);
    }
  }
}
