/**
 * src/association/conformance.rs: the conformance block of the xDLMS InitiateRequest and
 * InitiateResponse, a 24-bit set of service flags sent as three big-endian octets. The
 * negotiated conformance is the intersection of what the client proposes and what the
 * server supports.
 */
module Conformance {
  import opened Bytes

  /** `Conformance { bits: u32 }`. */
  datatype Conformance = Conformance(bits: bv32)

  const GeneralProtection := Conformance(0x0000_0001)
  const GeneralBlockTransfer := Conformance(0x0000_0002)
  const Read := Conformance(0x0000_0004)
  const Write := Conformance(0x0000_0008)
  const UnconfirmedWrite := Conformance(0x0000_0010)
  const Attribute0SupportedWithSet := Conformance(0x0000_0020)
  const PriorityMgmtSupported := Conformance(0x0000_0040)
  const Attribute0SupportedWithGet := Conformance(0x0000_0080)
  const BlockTransferWithGetOrRead := Conformance(0x0000_0100)
  const BlockTransferWithSetOrWrite := Conformance(0x0000_0200)
  const BlockTransferWithAction := Conformance(0x0000_0400)
  const MultipleReferences := Conformance(0x0000_0800)
  const InformationReport := Conformance(0x0000_1000)
  const DataNotification := Conformance(0x0000_2000)
  const ParameterizedAccess := Conformance(0x0000_4000)
  const Get := Conformance(0x0000_8000)
  const Set := Conformance(0x0001_0000)
  const SelectiveAccess := Conformance(0x0002_0000)
  const EventNotification := Conformance(0x0004_0000)
  const Action := Conformance(0x0008_0000)
  const Empty := Conformance(0)
  const All := Conformance(0x00FF_FFFF)

  /** The bits a conformance block can carry. */
  predicate Fits(c: Conformance) {
    c.bits & 0xFF00_0000 == 0
  }

  /** `from_bits`: the value masked to its low 24 bits. */
  function FromBits(b: bv32): (c: Conformance)
    ensures Fits(c)
  {
    Conformance(b & 0x00FF_FFFF)
  }

  /** Masking keeps every value that already fits. */
  lemma FromBitsKeepsFitting(c: Conformance)
    requires Fits(c)
    ensures FromBits(c.bits) == c
  {
  }

  function Union(a: Conformance, b: Conformance): Conformance {
    Conformance(a.bits | b.bits)
  }

  /** The negotiation step: the flags both sides have. */
  function Intersection(a: Conformance, b: Conformance): Conformance {
    Conformance(a.bits & b.bits)
  }

  function SymmetricDifference(a: Conformance, b: Conformance): Conformance {
    Conformance(a.bits ^ b.bits)
  }

  /** `difference`: the flags of `a` with those of `b` cleared. */
  function Difference(a: Conformance, b: Conformance): Conformance {
    Conformance(a.bits & !b.bits)
  }

  /** `!`: the complement, masked to 24 bits again. */
  function Complement(a: Conformance): (c: Conformance)
    ensures Fits(c)
  {
    FromBits(!a.bits)
  }

  /** `contains`: every flag of `b` is in `a`. */
  predicate Contains(a: Conformance, b: Conformance) {
    a.bits & b.bits == b.bits
  }

  predicate IsEmpty(a: Conformance) {
    a.bits == 0
  }

  /** Containment is subset: `a` contains `b` exactly when adding `b` adds nothing, and when removing `a` from `b` leaves nothing. */
  lemma ContainsIsSubset(a: Conformance, b: Conformance)
    ensures Contains(a, b) <==> Union(a, b) == a
    ensures Contains(a, b) <==> IsEmpty(Difference(b, a))
  {
    ContainedAbsorbed(a, b);
    AbsorbedContained(a, b);
    ContainedLeavesNothing(a, b);
    NothingLeftContained(a, b);
  }

  lemma ContainedAbsorbed(a: Conformance, b: Conformance)
    ensures Contains(a, b) ==> Union(a, b) == a
  {
  }

  lemma AbsorbedContained(a: Conformance, b: Conformance)
    ensures Union(a, b) == a ==> Contains(a, b)
  {
  }

  lemma ContainedLeavesNothing(a: Conformance, b: Conformance)
    ensures Contains(a, b) ==> IsEmpty(Difference(b, a))
  {
  }

  lemma NothingLeftContained(a: Conformance, b: Conformance)
    ensures IsEmpty(Difference(b, a)) ==> Contains(a, b)
  {
  }

  /** The negotiated conformance is offered by both sides, and is the largest such set. */
  lemma NegotiatedInBoth(client: Conformance, server: Conformance, c: Conformance)
    ensures Contains(client, Intersection(client, server))
    ensures Contains(server, Intersection(client, server))
    ensures Contains(client, c) && Contains(server, c) ==> Contains(Intersection(client, server), c)
  {
    IntersectionInLeft(client, server);
    IntersectionInRight(client, server);
    IntersectionGreatest(client, server, c);
  }

  lemma IntersectionInLeft(a: Conformance, b: Conformance)
    ensures Contains(a, Intersection(a, b))
  {
  }

  lemma IntersectionInRight(a: Conformance, b: Conformance)
    ensures Contains(b, Intersection(a, b))
  {
  }

  lemma IntersectionGreatest(a: Conformance, b: Conformance, c: Conformance)
    ensures Contains(a, c) && Contains(b, c) ==> Contains(Intersection(a, b), c)
  {
  }

  /** `difference` clears exactly the given flags: what is left shares nothing with them, and with the cleared part restores `a`. */
  lemma DifferenceClears(a: Conformance, b: Conformance)
    ensures Contains(a, Difference(a, b))
    ensures IsEmpty(Intersection(Difference(a, b), b))
    ensures Union(Difference(a, b), Intersection(a, b)) == a
  {
    DifferenceInside(a, b);
    DifferenceDisjoint(a, b);
    DifferenceRestores(a, b);
  }

  lemma DifferenceInside(a: Conformance, b: Conformance)
    ensures Contains(a, Difference(a, b))
  {
  }

  lemma DifferenceDisjoint(a: Conformance, b: Conformance)
    ensures IsEmpty(Intersection(Difference(a, b), b))
  {
  }

  lemma DifferenceRestores(a: Conformance, b: Conformance)
    ensures Union(Difference(a, b), Intersection(a, b)) == a
  {
  }

  /** The complement of a 24-bit value is its complement within the 24 bits. */
  lemma ComplementWithin(a: Conformance)
    requires Fits(a)
    ensures IsEmpty(Intersection(a, Complement(a)))
    ensures Union(a, Complement(a)) == All
  {
  }

  /** Both operands of the symmetric difference are recovered from it. */
  lemma SymmetricDifferenceInverts(a: Conformance, b: Conformance)
    ensures SymmetricDifference(SymmetricDifference(a, b), b) == a
  {
  }

  /** `from_bytes`: three big-endian octets, masked. */
  function FromBytes(b0: bv8, b1: bv8, b2: bv8): (c: Conformance)
    ensures Fits(c)
  {
    FromBits(((b0 as bv32) << 16) | ((b1 as bv32) << 8) | (b2 as bv32))
  }

  /** `to_bytes`: bits 23-16, 15-8 and 7-0. */
  function ToBytes(c: Conformance): (s: seq<bv8>)
    ensures |s| == 3
  {
    [((c.bits >> 16) & 0xFF) as bv8, ((c.bits >> 8) & 0xFF) as bv8, (c.bits & 0xFF) as bv8]
  }

  /** The octets of a conformance read back as the same conformance. */
  lemma BytesRoundTrip(c: Conformance)
    requires Fits(c)
    ensures FromBytes(ToBytes(c)[0], ToBytes(c)[1], ToBytes(c)[2]) == c
  {
  }

  /** The library's own example: 0x1F8000 is sent as `1F 80 00`, and read back. */
  lemma BytesExample()
    ensures ToBytes(FromBits(0x001F_8000)) == [0x1F, 0x80, 0x00]
    ensures FromBytes(0x1F, 0x80, 0x00).bits == 0x001F_8000
  {
  }

  /** `TYPICAL_CLIENT_LN`: the logical-name services and block transfer. */
  const TypicalClientLn := Conformance(Get.bits | Set.bits | Action.bits | SelectiveAccess.bits
    | BlockTransferWithGetOrRead.bits | BlockTransferWithSetOrWrite.bits | BlockTransferWithAction.bits)

  /** `TYPICAL_CLIENT_SN`: the short-name services and block transfer. */
  const TypicalClientSn := Conformance(Read.bits | Write.bits | BlockTransferWithGetOrRead.bits | BlockTransferWithSetOrWrite.bits)

  lemma TypicalClients()
    ensures Contains(TypicalClientLn, Get) && Contains(TypicalClientLn, Set)
    ensures Contains(TypicalClientLn, Action) && Contains(TypicalClientLn, SelectiveAccess)
    ensures !Contains(TypicalClientLn, Read) && !Contains(TypicalClientLn, Write)
    ensures Contains(TypicalClientSn, Read) && Contains(TypicalClientSn, Write)
    ensures !Contains(TypicalClientSn, Get) && !Contains(TypicalClientSn, Set)
  {
  }

  /** The library's negotiation example: GET, SET, ACTION against GET, ACTION, READ. */
  lemma NegotiationExample()
    ensures Contains(Intersection(Union(Union(Get, Set), Action), Union(Union(Get, Action), Read)), Get)
    ensures !Contains(Intersection(Union(Union(Get, Set), Action), Union(Union(Get, Action), Read)), Set)
    ensures Contains(Intersection(Union(Union(Get, Set), Action), Union(Union(Get, Action), Read)), Action)
    ensures !Contains(Intersection(Union(Union(Get, Set), Action), Union(Union(Get, Action), Read)), Read)
  {
  }
}
