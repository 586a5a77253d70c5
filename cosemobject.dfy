/**
 * What the COSEM interface classes of src/cosem/ share: the numeric test their setters
 * apply, the way attribute 1 (the logical name) and a scaler-unit pair are returned as
 * Data, the scaler-unit decoding of the setters, and the two "unspecified" date-times
 * that resets write.
 */
module CosemObject {
  import opened Bytes
  import opened AxdrData
  import Obis
  import Units

  /**
   * `Data::is_numeric` (src/data.rs is not part of this model for it): the eight integer
   * variants and the two floating-point ones.
   */
  predicate IsNumeric(d: Data) {
    d.Integer? || d.Unsigned? || d.Long? || d.LongUnsigned? || d.DoubleLong?
    || d.DoubleLongUnsigned? || d.Long64? || d.Long64Unsigned? || d.Float32? || d.Float64?
  }

  /** The integer-valued numeric variants. */
  predicate IsIntegral(d: Data) {
    d.Integer? || d.Unsigned? || d.Long? || d.LongUnsigned? || d.DoubleLong?
    || d.DoubleLongUnsigned? || d.Long64? || d.Long64Unsigned?
  }

  /** The integer an integral variant holds. */
  function IntegralValue(d: Data): int
    requires IsIntegral(d)
  {
    match d
    case Integer(x) => x
    case Unsigned(x) => x
    case Long(x) => x
    case LongUnsigned(x) => x
    case DoubleLong(x) => x
    case DoubleLongUnsigned(x) => x
    case Long64(x) => x
    case Long64Unsigned(x) => x
  }

  /** Attribute 1: `Data::OctetString(logical_name.encode().to_vec())`, six octets that parse back. */
  function LogicalNameValue(code: Obis.ObisCode): (d: Data)
    ensures d.OctetString? && |d.bytes| == 6
    ensures Obis.Parse(d.bytes) == Some((code, []))
  {
    var s := Obis.Encode(code);
    assert s[6..] == [];
    OctetString(s)
  }

  /** `unit.as_i8() as u8`: the two's-complement reinterpretation and back. */
  function UnitOctet(u: Units.Unit): (b: byte)
    ensures b == u
  {
    assert Pow256(1) == 256 * Pow256(0);
    ToTwos(Units.AsI8(u), 1)
  }

  /** The scaler-unit attribute: `Structure([Integer(scaler), Enum(unit.as_i8() as u8)])`. */
  function ScalerUnitValue(su: Units.ScalerUnit): (d: Data)
    ensures d == Units.AsData(su)
  {
    Structure([Integer(su.scaler), Enum(UnitOctet(su.unit))])
  }

  /**
   * The scaler-unit a setter accepts: a two-element structure of an Integer and an Enum
   * whose value is a declared unit code (`Unit::try_from`).
   */
  function ScalerUnitFrom(d: Data): (r: Option<Units.ScalerUnit>)
    ensures r.Some? <==> ScalerUnitShape(d) && Units.IsUnitCode(d.elements[1].enumValue)
  {
    if ScalerUnitShape(d) then
      match Units.UnitFromByte(d.elements[1].enumValue)
      case None => None
      case Some(u) => Some(Units.ScalerUnit(d.elements[0].i8, u))
    else None
  }

  /** `Data::Structure(elements)` with `elements.len() == 2`, an Integer and then an Enum. */
  predicate ScalerUnitShape(d: Data) {
    d.Structure? && |d.elements| == 2 && d.elements[0].Integer? && d.elements[1].Enum?
  }

  /** What the getter returns the setter accepts unchanged. */
  lemma ScalerUnitRoundTrip(su: Units.ScalerUnit)
    ensures ScalerUnitFrom(ScalerUnitValue(su)) == Some(su)
  {
  }

  /** And what the setter accepts is exactly what the getter would return for it. */
  lemma ScalerUnitFromSound(d: Data)
    requires ScalerUnitFrom(d).Some?
    ensures ScalerUnitValue(ScalerUnitFrom(d).value) == d
  {
    var es := d.elements;
    assert es == [es[0], es[1]];
  }

  /**
   * The scaler-unit update of src/cosem/extended_register.rs:207-212 and
   * src/cosem/demand_register.rs:229-240 as written: once the value has the right shape
   * the scaler is stored, and only then is the unit code checked. The flag says whether
   * the setter reports success.
   */
  function WriteScalerFirst(su: Units.ScalerUnit, v: Data): (r: (Units.ScalerUnit, bool))
    ensures r.1 <==> ScalerUnitFrom(v).Some?
    ensures r.1 ==> r.0 == ScalerUnitFrom(v).value
    ensures !r.1 ==> r.0.unit == su.unit
    ensures !ScalerUnitShape(v) ==> r.0 == su
  {
    if ScalerUnitShape(v) then
      var scaled := su.(scaler := v.elements[0].i8);
      match Units.UnitFromByte(v.elements[1].enumValue)
      case None => (scaled, false)
      case Some(u) => (scaled.(unit := u), true)
    else (su, false)
  }

  /**
   * The partial update: a structure with a reserved unit code (0 here) is refused, and yet
   * the scaler it carries has replaced the old one.
   */
  lemma ReservedUnitKeepsNewScaler(su: Units.ScalerUnit, scaler: i8)
    ensures WriteScalerFirst(su, Structure([Integer(scaler), Enum(0)])) == (su.(scaler := scaler), false)
  {
    assert !Units.IsUnitCode(0);
  }

  /** `parameters.unwrap_or(Data::DoubleLongUnsigned(0))`, the value a reset stores. */
  function ResetValue(parameters: Option<Data>): (d: Data)
    ensures parameters.None? ==> d == DoubleLongUnsigned(0) && IsNumeric(d)
    ensures parameters.Some? ==> d == parameters.value
  {
    if parameters.Some? then parameters.value else DoubleLongUnsigned(0)
  }

  /** `Date { year: 0xFFFF, month: 0xFF, day_of_month: 0xFF, day_of_week: 0xFF }`. */
  const WildcardDate := CosemDate(0xFFFF, 0xFF, 0xFF, 0xFF)

  /**
   * `wildcard_datetime()` of src/cosem/clock.rs:51-63, also written out in src/cosem/demand_register.rs:
   * every time field present with the value 0xFF, no offset, no status.
   */
  const WildcardDateTime := CosemDateTime(WildcardDate, CosemTime(Some(0xFF), Some(0xFF), Some(0xFF), Some(0xFF)), None, None)

  /** The capture time the extended register's reset writes: every time field absent. */
  const ClearedDateTime := CosemDateTime(WildcardDate, CosemTime(None, None, None, None), None, None)

  /**
   * Both are sent as the same twelve octets (all 0xFF but the 0x8000 "no offset"), and
   * those octets read back as the cleared form.
   */
  lemma WildcardsAgreeOnWire()
    ensures EncodeDateTime(WildcardDateTime) == EncodeDateTime(ClearedDateTime)
    ensures EncodeDateTime(ClearedDateTime)[5..] == [0xFF, 0xFF, 0xFF, 0xFF, 0x80, 0x00, 0xFF]
    ensures ParseDateTime(EncodeDateTime(WildcardDateTime)) == Some((ClearedDateTime, []))
  {
    TimeFirstFourWild();
    DateTimeWildcards(WildcardDate, ClearedDateTime.time, []);
    assert EncodeDateTime(ClearedDateTime) + [] == EncodeDateTime(ClearedDateTime);
  }

  lemma TimeFirstFourWild()
    ensures EncodeTime(WildcardDateTime.time) == EncodeTime(ClearedDateTime.time) == [0xFF, 0xFF, 0xFF, 0xFF]
  {
  }
}
