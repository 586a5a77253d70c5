/**
 * src/association/ber.rs: the subset of the ASN.1 Basic Encoding Rules (ISO/IEC 8825-1,
 * ITU-T X.690 sections 8.1.2 and 8.1.3) that the ACSE APDUs use: one-octet identifiers,
 * definite lengths of at most two octets, and tag-length-value fields.
 */
module Ber {
  import opened Bytes
  import opened Wire

  datatype TagClass = Universal | Application | ContextSpecific | Private
  datatype TagType = Primitive | Constructed

  /** An identifier octet once parsed: its class, the constructed bit and a number below 31. */
  datatype Tag = Tag(tagClass: TagClass, kind: TagType, number: nat)

  /** The `nom` error kinds the parsers return. */
  datatype BerError = Incomplete | TagError | LengthValue | Eof

  type Parsed<T> = Result<(T, seq<byte>), BerError>

  /** `TagClass::to_bits`: bits 7-6. */
  function ClassBits(c: TagClass): (b: byte)
    ensures b % 64 == 0
  {
    match c
    case Universal => 0x00
    case Application => 0x40
    case ContextSpecific => 0x80
    case Private => 0xC0
  }

  /** `TagClass::from_bits`: `byte & 0xC0`, that is bits 7-6 of the octet. */
  function ClassOf(b: byte): (c: TagClass)
    ensures ClassBits(c) == b / 64 * 64
  {
    var top := b / 64;
    if top == 0 then Universal
    else if top == 1 then Application
    else if top == 2 then ContextSpecific
    else Private
  }

  /** `TagType::to_bit`: bit 5. */
  function TypeBit(t: TagType): (b: byte)
    ensures b == 0 || b == 32
  {
    if t == Constructed then 0x20 else 0x00
  }

  /** `TagType::from_bit`: `byte & 0x20 != 0`. */
  function TypeOf(b: byte): (t: TagType)
    ensures TypeBit(t) == b / 32 % 2 * 32
  {
    if b / 32 % 2 == 1 then Constructed else Primitive
  }

  /**
   * `encode_tag`: class bits, the constructed bit and the number, ORed; numbers above 30 panic.
   * The three fields occupy disjoint bits (7-6, 5 and 4-0), so the OR is their sum.
   */
  function EncodeTag(c: TagClass, t: TagType, n: nat): (b: byte)
    requires n <= 30
  {
    ClassBits(c) + TypeBit(t) + n
  }

  /** `parse_tag`: one octet; a number field (`byte & 0x1F`) of 31 announces a multi-octet tag, which is refused. */
  function ParseTag(s: seq<byte>): (r: Parsed<Tag>)
    ensures r.Err? ==> r.error == Incomplete || r.error == TagError
    ensures r.Err? && r.error == Incomplete <==> |s| == 0
    ensures r.Ok? ==> r.value.0.number <= 30 && r.value.1 == s[1..]
  {
    if |s| == 0 then Err(Incomplete)
    else
      var n := s[0] % 32;
      if n == 31 then Err(TagError)
      else Ok((Tag(ClassOf(s[0]), TypeOf(s[0]), n), s[1..]))
  }

  lemma TagFields(c: TagClass, t: TagType, n: nat)
    requires n <= 30
    ensures ClassOf(EncodeTag(c, t, n)) == c
    ensures TypeOf(EncodeTag(c, t, n)) == t
    ensures EncodeTag(c, t, n) % 32 == n
  {
  }

  /** Parsing an encoded identifier gives back the class, the type and the number. */
  lemma TagRoundTrip(c: TagClass, t: TagType, n: nat, rest: seq<byte>)
    requires n <= 30
    ensures ParseTag([EncodeTag(c, t, n)] + rest) == Ok((Tag(c, t, n), rest))
  {
    TagFields(c, t, n);
    assert ([EncodeTag(c, t, n)] + rest)[1..] == rest;
  }

  /** Every identifier octet that parses is the encoding of what it parses to. */
  lemma TagSound(s: seq<byte>)
    requires ParseTag(s).Ok?
    ensures EncodeTag(ParseTag(s).value.0.tagClass, ParseTag(s).value.0.kind, ParseTag(s).value.0.number) == s[0]
  {
  }

  /** The identifiers the ACSE APDUs use. */
  lemma TagExamples()
    ensures EncodeTag(Universal, Primitive, 5) == 0x05
    ensures EncodeTag(Universal, Primitive, 6) == 0x06
    ensures EncodeTag(Universal, Constructed, 16) == 0x30
    ensures EncodeTag(Application, Constructed, 0) == 0x60
    ensures EncodeTag(Application, Constructed, 1) == 0x61
    ensures EncodeTag(ContextSpecific, Constructed, 0) == 0xA0
    ensures EncodeTag(ContextSpecific, Constructed, 1) == 0xA1
  {
  }

  /** `encode_length`: the short form up to 127, then `81 n`, then `82 hi lo`; longer lengths panic. */
  function EncodeLength(n: nat): (s: seq<byte>)
    requires n <= 0xFFFF
    ensures |s| == if n <= 127 then 1 else if n <= 255 then 2 else 3
  {
    if n <= 127 then [n]
    else if n <= 255 then [0x81, n]
    else [0x82] + U16Bytes(n)
  }

  /**
   * `parse_length`: a first octet below 0x80 is the length; otherwise its low seven bits count
   * the length octets that follow, which must be one or two (0x80, the indefinite form, is refused).
   */
  function ParseLength(s: seq<byte>): (r: Parsed<nat>)
    ensures r.Err? && r.error == LengthValue <==> |s| >= 1 && (s[0] == 0x80 || s[0] > 0x82)
    ensures r.Err? ==> r.error == Incomplete || r.error == LengthValue
    ensures r.Ok? ==> r.value.0 <= 0xFFFF && |r.value.1| < |s| && r.value.1 == s[|s| - |r.value.1|..]
  {
    if |s| == 0 then Err(Incomplete)
    else if s[0] < 0x80 then Ok((s[0] as nat, s[1..]))
    else
      var k := s[0] - 0x80;
      if k == 0 || k > 2 then Err(LengthValue)
      else if |s| < 1 + k then Err(Incomplete)
      else Ok((BeValue(s[1..1 + k]), s[1 + k..]))
  }

  lemma BeValueSnoc(s: seq<byte>, i: nat)
    requires i < |s|
    ensures BeValue(s[..i + 1]) == BeValue(s[..i]) * 256 + s[i]
  {
    assert s[..i + 1][..i] == s[..i];
  }

  /** The loop of `parse_length`, which shifts each length octet into `length`. */
  method ParseLengthLoop(input: seq<byte>) returns (r: Parsed<nat>)
    ensures r == ParseLength(input)
  {
    if |input| == 0 {
      return Err(Incomplete);
    }
    var first := input[0];
    var remaining := input[1..];
    if first < 0x80 {
      return Ok((first as nat, remaining));
    }
    var numOctets := first - 0x80;
    if numOctets == 0 || numOctets > 2 {
      return Err(LengthValue);
    }
    var length: nat := 0;
    for i := 0 to numOctets
      invariant 1 + i <= |input|
      invariant remaining == input[1 + i..]
      invariant length == BeValue(input[1..][..i])
    {
      if |remaining| == 0 {
        return Err(Incomplete);
      }
      BeValueSnoc(input[1..], i);
      length := length * 256 + remaining[0];
      remaining := remaining[1..];
    }
    assert input[1..][..numOctets] == input[1..1 + numOctets];
    return Ok((length, remaining));
  }

  /** Every length the encoder accepts parses back, with the octets after it left over. */
  lemma LengthRoundTrip(n: nat, rest: seq<byte>)
    requires n <= 0xFFFF
    ensures ParseLength(EncodeLength(n) + rest) == Ok((n, rest))
  {
    var s := EncodeLength(n) + rest;
    if n <= 127 {
      assert s[1..] == rest;
    } else if n <= 255 {
      assert s[1..2] == [n];
      assert BeValue([n]) == n;
      assert s[2..] == rest;
    } else {
      U16Digits(n);
      assert s[1..3] == [n / 256, n % 256];
      assert BeValue([n / 256, n % 256]) == n by {
        assert [n / 256, n % 256][..1] == [n / 256];
      }
      assert s[3..] == rest;
    }
  }

  /** The parser is not canonical: a long form for a short length is read too. */
  lemma LongFormOfShortLength()
    ensures ParseLength([0x81, 0x05]) == Ok((5, []))
    ensures ParseLength([0x82, 0x00, 0x05]) == Ok((5, []))
  {
    var a: seq<byte> := [0x81, 0x05];
    assert a[1..2] == [5];
    assert BeValue([5]) == 5;
    var b: seq<byte> := [0x82, 0x00, 0x05];
    assert b[1..3] == [0, 5];
    assert BeValue([0, 5]) == 5 by {
      assert [0, 5][..1] == [0];
    }
  }

  /** The tag-length-value field the encoders build: the identifier, the length, then the content. */
  function TlvBytes(tag: byte, content: seq<byte>): (s: seq<byte>)
    requires |content| <= 0xFFFF
  {
    [tag] + (EncodeLength(|content|) + content)
  }

  /** Each encoder's body: `vec![tag]`, then `extend(encode_length(..))`, then `extend_from_slice(content)`. */
  method EncodeTlv(tag: byte, content: seq<byte>) returns (result: seq<byte>)
    requires |content| <= 0xFFFF
    ensures |result| == 1 + |EncodeLength(|content|)| + |content|
    ensures result == TlvBytes(tag, content)
  {
    result := [tag];
    result := result + EncodeLength(|content|);
    result := result + content;
  }

  /** `encode_object_identifier`: universal tag 6. */
  function EncodeObjectIdentifier(oid: seq<byte>): seq<byte>
    requires |oid| <= 0xFFFF
  {
    TlvBytes(0x06, oid)
  }

  /** `encode_bit_string`: universal tag 3; the content is the unused-bit count, then the bits. */
  function EncodeBitString(bits: seq<byte>, unusedBits: byte): seq<byte>
    requires |bits| < 0xFFFF
  {
    TlvBytes(0x03, [unusedBits] + bits)
  }

  /** `encode_octet_string`: universal tag 4. */
  function EncodeOctetString(octets: seq<byte>): seq<byte>
    requires |octets| <= 0xFFFF
  {
    TlvBytes(0x04, octets)
  }

  /** `encode_context_specific`. */
  function EncodeContextSpecific(n: nat, t: TagType, content: seq<byte>): seq<byte>
    requires n <= 30 && |content| <= 0xFFFF
  {
    TlvBytes(EncodeTag(ContextSpecific, t, n), content)
  }

  /** `encode_sequence`: universal constructed tag 16, the octet 0x30. */
  function EncodeSequence(content: seq<byte>): seq<byte>
    requires |content| <= 0xFFFF
  {
    TlvBytes(EncodeTag(Universal, Constructed, 16), content)
  }

  /** `encode_application`. */
  function EncodeApplication(n: nat, t: TagType, content: seq<byte>): seq<byte>
    requires n <= 30 && |content| <= 0xFFFF
  {
    TlvBytes(EncodeTag(Application, t, n), content)
  }

  /** The length and content that follow an accepted identifier: a declared length beyond the input is `Eof`. */
  function ParseBody(s: seq<byte>): (r: Parsed<seq<byte>>)
    ensures r.Ok? ==> |r.value.0| + |r.value.1| < |s|
    ensures r.Ok? ==> r.value.0 + r.value.1 == s[|s| - |r.value.0| - |r.value.1|..]
  {
    match ParseLength(s)
    case Err(e) => Err(e)
    case Ok((n, s1)) =>
      if |s1| < n then Err(Eof)
      else Ok((s1[..n], s1[n..]))
  }

  /** `parse_object_identifier`, `parse_octet_string` and `parse_sequence`: an expected identifier octet, then the body. */
  function ParseUniversal(tag: byte, s: seq<byte>): (r: Parsed<seq<byte>>)
    ensures |s| >= 1 && s[0] != tag ==> r == Err(TagError)
    ensures r.Ok? ==> |s| >= 1 && s[0] == tag
  {
    match TakeByte(s)
    case None => Err(Incomplete)
    case Some((b, s1)) =>
      if b != tag then Err(TagError) else ParseBody(s1)
  }

  function ParseObjectIdentifier(s: seq<byte>): Parsed<seq<byte>> {
    ParseUniversal(0x06, s)
  }

  function ParseOctetString(s: seq<byte>): Parsed<seq<byte>> {
    ParseUniversal(0x04, s)
  }

  function ParseSequence(s: seq<byte>): Parsed<seq<byte>> {
    ParseUniversal(0x30, s)
  }

  /** `parse_bit_string`: a length of at least one, the unused-bit count, then `length - 1` octets of bits. */
  function ParseBitString(s: seq<byte>): (r: Parsed<(seq<byte>, byte)>)
    ensures |s| >= 1 && s[0] != 0x03 ==> r == Err(TagError)
    ensures r.Ok? ==> |s| >= 1 && s[0] == 0x03
  {
    match TakeByte(s)
    case None => Err(Incomplete)
    case Some((b, s1)) =>
      if b != 0x03 then Err(TagError)
      else
        match ParseLength(s1)
        case Err(e) => Err(e)
        case Ok((n, s2)) =>
          if n < 1 || |s2| < n then Err(Eof)
          else Ok(((s2[1..n], s2[0]), s2[n..]))
  }

  /** `parse_context_specific`: the class must be context-specific and the number the expected one; the constructed bit is not checked. */
  function ParseContextSpecific(s: seq<byte>, expected: nat): (r: Parsed<seq<byte>>)
    ensures r.Ok? ==> ParseTag(s).Ok? && ParseTag(s).value.0.tagClass == ContextSpecific && ParseTag(s).value.0.number == expected
  {
    match ParseTag(s)
    case Err(e) => Err(e)
    case Ok((tag, s1)) =>
      if tag.tagClass != ContextSpecific || tag.number != expected then Err(TagError)
      else ParseBody(s1)
  }

  lemma BodyRoundTrip(content: seq<byte>, rest: seq<byte>)
    requires |content| <= 0xFFFF
    ensures ParseBody(EncodeLength(|content|) + content + rest) == Ok((content, rest))
  {
    var s := EncodeLength(|content|) + content + rest;
    assert s == EncodeLength(|content|) + (content + rest);
    LengthRoundTrip(|content|, content + rest);
    assert (content + rest)[..|content|] == content;
    assert (content + rest)[|content|..] == rest;
  }

  lemma UniversalRoundTrip(tag: byte, content: seq<byte>, rest: seq<byte>)
    requires |content| <= 0xFFFF
    ensures ParseUniversal(tag, TlvBytes(tag, content) + rest) == Ok((content, rest))
  {
    var s := TlvBytes(tag, content) + rest;
    assert s == [tag] + (EncodeLength(|content|) + content + rest);
    TakeByteOf(tag, EncodeLength(|content|) + content + rest);
    BodyRoundTrip(content, rest);
  }

  /** The universal strings parse back to their content, the octets after them left over. */
  lemma ObjectIdentifierRoundTrip(oid: seq<byte>, rest: seq<byte>)
    requires |oid| <= 0xFFFF
    ensures ParseObjectIdentifier(EncodeObjectIdentifier(oid) + rest) == Ok((oid, rest))
  {
    UniversalRoundTrip(0x06, oid, rest);
  }

  lemma OctetStringRoundTrip(octets: seq<byte>, rest: seq<byte>)
    requires |octets| <= 0xFFFF
    ensures ParseOctetString(EncodeOctetString(octets) + rest) == Ok((octets, rest))
  {
    UniversalRoundTrip(0x04, octets, rest);
  }

  lemma SequenceRoundTrip(content: seq<byte>, rest: seq<byte>)
    requires |content| <= 0xFFFF
    ensures EncodeSequence(content)[0] == 0x30
    ensures ParseSequence(EncodeSequence(content) + rest) == Ok((content, rest))
  {
    UniversalRoundTrip(0x30, content, rest);
  }

  lemma BitStringRoundTrip(bits: seq<byte>, unusedBits: byte, rest: seq<byte>)
    requires |bits| < 0xFFFF
    ensures ParseBitString(EncodeBitString(bits, unusedBits) + rest) == Ok(((bits, unusedBits), rest))
  {
    var c := [unusedBits] + bits;
    var s := EncodeBitString(bits, unusedBits) + rest;
    assert s == [0x03] + (EncodeLength(|c|) + (c + rest));
    TakeByteOf(0x03, EncodeLength(|c|) + (c + rest));
    LengthRoundTrip(|c|, c + rest);
    var s2 := c + rest;
    assert s2[0] == unusedBits;
    assert s2[1..|c|] == bits;
    assert s2[|c|..] == rest;
  }

  /** A bit string without even its unused-bit octet is refused as `Eof`. */
  lemma EmptyBitStringRefused(rest: seq<byte>)
    ensures ParseBitString([0x03, 0x00] + rest) == Err(Eof)
  {
    var s := [0x03, 0x00] + rest;
    assert s[1..] == [0x00] + rest;
    assert ([0x00] + rest)[1..] == rest;
  }

  /** The four helpers' values in the library's examples. */
  lemma EncodeExamples()
    ensures EncodeBitString([0x80], 7) == [0x03, 0x02, 0x07, 0x80]
    ensures EncodeObjectIdentifier([0x60, 0x85, 0x74, 0x05, 0x08, 0x01, 0x01]) == [0x06, 0x07, 0x60, 0x85, 0x74, 0x05, 0x08, 0x01, 0x01]
    ensures EncodeContextSpecific(0, Constructed, [0x64, 0x61, 0x74, 0x61]) == [0xA0, 0x04, 0x64, 0x61, 0x74, 0x61]
    ensures EncodeApplication(0, Constructed, [0x61, 0x61, 0x72, 0x71]) == [0x60, 0x04, 0x61, 0x61, 0x72, 0x71]
  {
    TagExamples();
  }

  /** A context-specific field reads back under its own number, whichever the constructed bit. */
  lemma ContextSpecificRoundTrip(n: nat, t: TagType, content: seq<byte>, rest: seq<byte>)
    requires n <= 30 && |content| <= 0xFFFF
    ensures ParseContextSpecific(EncodeContextSpecific(n, t, content) + rest, n) == Ok((content, rest))
  {
    var tag := EncodeTag(ContextSpecific, t, n);
    var s := EncodeContextSpecific(n, t, content) + rest;
    assert s == [tag] + (EncodeLength(|content|) + content + rest);
    TagRoundTrip(ContextSpecific, t, n, EncodeLength(|content|) + content + rest);
    BodyRoundTrip(content, rest);
  }

  /** Under any other number, or with any other class, the field is refused as a wrong tag. */
  lemma ContextSpecificWrongTag(c: TagClass, t: TagType, n: nat, expected: nat, body: seq<byte>)
    requires n <= 30 && (c != ContextSpecific || n != expected)
    ensures ParseContextSpecific([EncodeTag(c, t, n)] + body, expected) == Err(TagError)
  {
    TagRoundTrip(c, t, n, body);
  }

  /** A declared length longer than what follows is `Eof`, for every one of the parsers. */
  lemma DeclaredLengthBeyondInput(n: nat, content: seq<byte>)
    requires n <= 0xFFFF && |content| < n
    ensures ParseBody(EncodeLength(n) + content) == Err(Eof)
    ensures ParseObjectIdentifier([0x06] + (EncodeLength(n) + content)) == Err(Eof)
    ensures ParseOctetString([0x04] + (EncodeLength(n) + content)) == Err(Eof)
    ensures ParseSequence([0x30] + (EncodeLength(n) + content)) == Err(Eof)
    ensures ParseBitString([0x03] + (EncodeLength(n) + content)) == Err(Eof)
  {
    LengthRoundTrip(n, content);
    TakeByteOf(0x06, EncodeLength(n) + content);
    TakeByteOf(0x04, EncodeLength(n) + content);
    TakeByteOf(0x30, EncodeLength(n) + content);
    TakeByteOf(0x03, EncodeLength(n) + content);
  }
}
