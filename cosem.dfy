/**
 * src/cosem.rs: the access rights of COSEM attributes and methods. Both are a single
 * octet of flags combined with bitwise OR; an attribute holds its id, its rights and its
 * value, a method its id and its rights.
 */
module CosemAccess {
  import opened Bytes
  import AxdrData

  /** `AttributeAccess(u8)`. */
  datatype AttributeAccess = AttributeAccess(bits: bv8)

  const NoAccess := AttributeAccess(0x00)
  const ReadOnly := AttributeAccess(0x01)
  const WriteOnly := AttributeAccess(0x02)
  const ReadWrite := AttributeAccess(0x03)
  const AuthenticatedRead := AttributeAccess(0x04)
  const AuthenticatedWrite := AttributeAccess(0x08)

  /** `MethodAccess(u8)`. */
  datatype MethodAccess = MethodAccess(bits: bv8)

  const MethodNoAccess := MethodAccess(0x00)
  const Access := MethodAccess(0x01)
  const AuthenticatedAccess := MethodAccess(0x02)

  // ---------------------------------------------------------------------------
  // A reference reading of a flag octet: the set of bit positions that are on
  // ---------------------------------------------------------------------------

  /** The single-bit mask of position k. */
  function Mask(k: nat): bv8
    requires k < 8
  {
    match k
    case 0 => 0x01 case 1 => 0x02 case 2 => 0x04 case 3 => 0x08
    case 4 => 0x10 case 5 => 0x20 case 6 => 0x40 case _ => 0x80
  }

  /** Whether bit k of x is on. */
  predicate On(x: bv8, k: nat)
    requires k < 8
  {
    x & Mask(k) != 0
  }

  /** The positions of the bits that are on. */
  function Flags(x: bv8): (f: set<nat>)
    ensures forall k :: k in f <==> k < 8 && On(x, k)
  {
    set k: nat | k < 8 && On(x, k)
  }

  // ---------------------------------------------------------------------------
  // The bit operations (lines 410-439 and 543-577)
  // ---------------------------------------------------------------------------

  /** `contains`: every flag of `other` is on in `a`. */
  predicate Contains(a: bv8, other: bv8) {
    a & other == other
  }

  /** `intersects`: some flag is on in both. */
  predicate Intersects(a: bv8, other: bv8) {
    a & other != 0
  }

  /** `is_no_access`. */
  predicate IsNoAccess(a: bv8) {
    a == 0
  }

  /** `BitOr` for both access types. */
  function Or(a: bv8, b: bv8): bv8 {
    a | b
  }

  /** `BitAnd` for both access types. */
  function And(a: bv8, b: bv8): bv8 {
    a & b
  }

  /** An octet is determined by its eight bits. */
  lemma {:induction false} SameBits(x: bv8, y: bv8)
    requires forall k: nat | k < 8 :: On(x, k) == On(y, k)
    ensures x == y
  {
    assert On(x, 0) == On(y, 0) && On(x, 1) == On(y, 1) && On(x, 2) == On(y, 2) && On(x, 3) == On(y, 3);
    assert On(x, 4) == On(y, 4) && On(x, 5) == On(y, 5) && On(x, 6) == On(y, 6) && On(x, 7) == On(y, 7);
  }

  /** A bit of a conjunction is on exactly when it is on in both operands. */
  lemma AndBit(x: bv8, y: bv8, k: nat)
    requires k < 8
    ensures On(x & y, k) == (On(x, k) && On(y, k))
  {
  }

  /** A bit of a disjunction is on exactly when it is on in either operand. */
  lemma OrBit(x: bv8, y: bv8, k: nat)
    requires k < 8
    ensures On(x | y, k) == (On(x, k) || On(y, k))
  {
  }

  /** The zero octet is the one with no bit on. */
  lemma ZeroBits(x: bv8)
    ensures x == 0 <==> forall k: nat | k < 8 :: !On(x, k)
  {
    if forall k: nat | k < 8 :: !On(x, k) {
      SameBits(x, 0);
    }
  }

  lemma {:induction false} AndFlags(x: bv8, y: bv8)
    ensures Flags(x & y) == Flags(x) * Flags(y)
  {
    forall k: nat | k < 8 {
      AndBit(x, y, k);
    }
  }

  lemma {:induction false} OrFlags(x: bv8, y: bv8)
    ensures Flags(x | y) == Flags(x) + Flags(y)
  {
    forall k: nat | k < 8 {
      OrBit(x, y, k);
    }
  }

  /** `|` is the union of the flag sets. */
  lemma {:induction false} OrIsUnion(a: bv8, b: bv8)
    ensures Flags(Or(a, b)) == Flags(a) + Flags(b)
  {
    OrFlags(a, b);
  }

  /** `&` is the intersection of the flag sets. */
  lemma {:induction false} AndIsIntersection(a: bv8, b: bv8)
    ensures Flags(And(a, b)) == Flags(a) * Flags(b)
  {
    AndFlags(a, b);
  }

  /** `is_no_access` holds exactly when no flag is on. */
  lemma {:induction false} NoAccessIsEmpty(a: bv8)
    ensures IsNoAccess(a) <==> Flags(a) == {}
  {
    ZeroBits(a);
    if Flags(a) == {} {
      forall k: nat | k < 8 ensures !On(a, k) {
        assert k !in Flags(a);
      }
    }
  }

  /** `contains(a, b)` holds exactly when b's flags are a subset of a's. */
  lemma {:induction false} ContainsIsSubset(a: bv8, b: bv8)
    ensures Contains(a, b) <==> Flags(b) <= Flags(a)
  {
    AndFlags(a, b);
    if Flags(b) <= Flags(a) {
      forall k: nat | k < 8 ensures On(a & b, k) == On(b, k) {
        AndBit(a, b, k);
        assert On(b, k) ==> k in Flags(b);
      }
      SameBits(a & b, b);
    }
  }

  /** `intersects(a, b)` holds exactly when a and b share a flag. */
  lemma {:induction false} IntersectsIsOverlap(a: bv8, b: bv8)
    ensures Intersects(a, b) <==> Flags(a) * Flags(b) != {}
  {
    AndFlags(a, b);
    NoAccessIsEmpty(a & b);
  }

  /** READ_WRITE is READ_ONLY | WRITE_ONLY, and it contains both (test at 803-811). */
  lemma ReadWriteIsBoth()
    ensures AttributeAccess(Or(ReadOnly.bits, WriteOnly.bits)) == ReadWrite
    ensures Contains(ReadWrite.bits, ReadOnly.bits) && Contains(ReadWrite.bits, WriteOnly.bits)
    ensures Flags(ReadWrite.bits) == {0, 1}
  {
    assert On(ReadWrite.bits, 0) && On(ReadWrite.bits, 1);
    assert forall k: nat | 2 <= k < 8 :: !On(ReadWrite.bits, k);
  }

  // ---------------------------------------------------------------------------
  // Attributes and methods (lines 263-342 and 447-485)
  // ---------------------------------------------------------------------------

  /** `CosemAttribute`. */
  datatype CosemAttribute = CosemAttribute(id: i8, access: AttributeAccess, value: AxdrData.Data)

  /** `CosemMethod`. */
  datatype CosemMethod = CosemMethod(id: i8, access: MethodAccess)

  /** `is_readable`: intersects READ_ONLY. */
  predicate IsReadable(attr: CosemAttribute) {
    Intersects(attr.access.bits, ReadOnly.bits)
  }

  /** `is_writable`: intersects WRITE_ONLY. */
  predicate IsWritable(attr: CosemAttribute) {
    Intersects(attr.access.bits, WriteOnly.bits)
  }

  /** `requires_authenticated_read`: contains AUTHENTICATED_READ. */
  predicate RequiresAuthenticatedRead(attr: CosemAttribute) {
    Contains(attr.access.bits, AuthenticatedRead.bits)
  }

  /** `requires_authenticated_write`: contains AUTHENTICATED_WRITE. */
  predicate RequiresAuthenticatedWrite(attr: CosemAttribute) {
    Contains(attr.access.bits, AuthenticatedWrite.bits)
  }

  /** `CosemMethod::is_accessible`: contains ACCESS. */
  predicate IsAccessible(m: CosemMethod) {
    Contains(m.access.bits, Access.bits)
  }

  /** `CosemMethod::requires_authentication`: contains AUTHENTICATED_ACCESS. */
  predicate MethodRequiresAuthentication(m: CosemMethod) {
    Contains(m.access.bits, AuthenticatedAccess.bits)
  }

  /** `MethodAccess::requires_authentication`: the 0x02 bit is on. */
  predicate RequiresAuthentication(a: MethodAccess) {
    a.bits & AuthenticatedAccess.bits != 0
  }

  /** A single-flag constant is the set of just that bit. */
  lemma {:induction false} SingleFlag(k: nat)
    requires k < 8
    ensures Flags(Mask(k)) == {k}
  {
    forall j: nat | j < 8 ensures On(Mask(k), j) == (j == k) {
      assert j == k || Mask(k) & Mask(j) == 0;
    }
  }

  /** Readable exactly when bit 0 is on, writable exactly when bit 1 is on. */
  lemma {:induction false} ReadableWritableBits(attr: CosemAttribute)
    ensures IsReadable(attr) <==> 0 in Flags(attr.access.bits)
    ensures IsWritable(attr) <==> 1 in Flags(attr.access.bits)
  {
    SingleFlag(0);
    SingleFlag(1);
    IntersectsIsOverlap(attr.access.bits, ReadOnly.bits);
    IntersectsIsOverlap(attr.access.bits, WriteOnly.bits);
  }

  /** The authenticated flags are bits 2 and 3. */
  lemma {:induction false} AuthenticatedBits(attr: CosemAttribute)
    ensures RequiresAuthenticatedRead(attr) <==> 2 in Flags(attr.access.bits)
    ensures RequiresAuthenticatedWrite(attr) <==> 3 in Flags(attr.access.bits)
  {
    SingleFlag(2);
    SingleFlag(3);
    ContainsIsSubset(attr.access.bits, AuthenticatedRead.bits);
    ContainsIsSubset(attr.access.bits, AuthenticatedWrite.bits);
  }

  /**
   * The method predicates: accessible exactly when bit 0 is on; authentication required
   * exactly when bit 1 is on, and the `contains` and `!= 0` spellings agree.
   */
  lemma {:induction false} MethodBits(m: CosemMethod)
    ensures IsAccessible(m) <==> 0 in Flags(m.access.bits)
    ensures MethodRequiresAuthentication(m) <==> 1 in Flags(m.access.bits)
    ensures RequiresAuthentication(m.access) <==> MethodRequiresAuthentication(m)
  {
    SingleFlag(0);
    SingleFlag(1);
    ContainsIsSubset(m.access.bits, Access.bits);
    ContainsIsSubset(m.access.bits, AuthenticatedAccess.bits);
    IntersectsIsOverlap(m.access.bits, AuthenticatedAccess.bits);
  }
}
