/**
 * src/unit.rs: the COSEM unit codes (an enum over u8 with reserved gaps) and the
 * scaler-unit pair that registers carry, encoded as an A-XDR structure of an integer
 * and an enum.
 */
module Units {
  import opened Bytes
  import AxdrData

  /** The codes `Unit` declares: 1-57, 60-67, 70-72, 254 and 255. */
  predicate IsUnitCode(b: int) {
    1 <= b <= 57 || 60 <= b <= 67 || 70 <= b <= 72 || b == 254 || b == 255
  }

  /** A unit is its discriminant, so `encode` (`*self as u8`) is the identity on it. */
  type Unit = b: byte | IsUnitCode(b) witness 1

  const Year: Unit := 1
  const Month: Unit := 2
  const Week: Unit := 3
  const Day: Unit := 4
  const Hour: Unit := 5
  const Minute: Unit := 6
  const Second: Unit := 7
  const Degree: Unit := 8
  const DegreeCelsius: Unit := 9
  const Currency: Unit := 10
  const Meter: Unit := 11
  const MeterPerSecond: Unit := 12
  const CubicMeter: Unit := 13
  const CubicMeterCorrected: Unit := 14
  const CubicMeterPerHour: Unit := 15
  const CubicMeterPerHourCorrected: Unit := 16
  const CubicMeterPerDay: Unit := 17
  const CubicMeterPerDayCorrected: Unit := 18
  const Liter: Unit := 19
  const Kilogramm: Unit := 20
  const Newton: Unit := 21
  const Newtonmeter: Unit := 22
  const Pascal: Unit := 23
  const Bar: Unit := 24
  const Joule: Unit := 25
  const JoulePerHour: Unit := 26
  const Watt: Unit := 27
  const VoltAmpere: Unit := 28
  const Var: Unit := 29
  const WattHour: Unit := 30
  const VoltAmpereHour: Unit := 31
  const VarHour: Unit := 32
  const Ampere: Unit := 33
  const Coulomb: Unit := 34
  const Volt: Unit := 35
  const VoltPerMeter: Unit := 36
  const Farad: Unit := 37
  const Ohm: Unit := 38
  const OhmMeter: Unit := 39
  const Weber: Unit := 40
  const Tesla: Unit := 41
  const AmperePerMeter: Unit := 42
  const Henry: Unit := 43
  const Hertz: Unit := 44
  const InverseWattHour: Unit := 45
  const InverseVarHour: Unit := 46
  const InverseVoltAmpereHour: Unit := 47
  const VoltSquaredHour: Unit := 48
  const AmpereSquaredHour: Unit := 49
  const KilogrammPerSecond: Unit := 50
  const Siemens: Unit := 51
  const Kelvin: Unit := 52
  const InverseVoltSquaredHour: Unit := 53
  const InverseAmpereSquaredHour: Unit := 54
  const InverseCubicMeter: Unit := 55
  const Percent: Unit := 56
  const AmpereHour: Unit := 57
  const WattHourPerCubicMeter: Unit := 60
  const JoulePerCubicMeter: Unit := 61
  const MolePercent: Unit := 62
  const GrammPerCubicMeter: Unit := 63
  const PascalSecond: Unit := 64
  const JoulePerKilogramm: Unit := 65
  const GramPerSquareCentimeter: Unit := 66
  const Atmosphere: Unit := 67
  const DezibelMilliwatt: Unit := 70
  const DezibelMicrovolt: Unit := 71
  const Dezibel: Unit := 72
  const Other: Unit := 254
  const Count: Unit := 255

  /** `Unit::try_from(u8)`. */
  function UnitFromByte(b: byte): (r: Option<Unit>)
    ensures r.Some? <==> IsUnitCode(b)
    ensures r.Some? ==> r.value == b
  {
    if IsUnitCode(b) then Some(b) else None
  }

  /** `encode`: the discriminant. */
  function EncodeUnit(u: Unit): (b: byte)
    ensures UnitFromByte(b) == Some(u)
  {
    u
  }

  /** The reserved codes are rejected (the library's own examples). */
  lemma ReservedRejected()
    ensures UnitFromByte(0).None? && UnitFromByte(58).None? && UnitFromByte(59).None?
    ensures UnitFromByte(68).None? && UnitFromByte(69).None? && UnitFromByte(73).None?
    ensures UnitFromByte(127).None? && UnitFromByte(253).None?
  {
  }

  /** `as_i8`: the discriminant reinterpreted as a two's-complement octet. */
  function AsI8(u: Unit): (v: i8)
    ensures u < 128 ==> v == u
    ensures u >= 128 ==> v == u - 256
  {
    FromTwos(u, 1)
  }

  lemma AsI8Special()
    ensures AsI8(Other) == -2 && AsI8(Count) == -1
  {
  }

  /** `as_str`: the unit's symbol; Other and Count have none. */
  function Symbol(u: Unit): Option<string> {
    if u == Other || u == Count then None
    else
      Some(match u
      case 1 => "a"
      case 2 => "mo"
      case 3 => "wk"
      case 4 => "d"
      case 5 => "h"
      case 6 => "min"
      case 7 => "s"
      case 8 => "°"
      case 9 => "°C"
      case 10 => "currency"
      case 11 => "m"
      case 12 => "m/s"
      case 13 => "m³"
      case 14 => "m³"
      case 15 => "m³/h"
      case 16 => "m³/h"
      case 17 => "m³/d"
      case 18 => "m³/d"
      case 19 => "l"
      case 20 => "kg"
      case 21 => "N"
      case 22 => "Nm"
      case 23 => "Pa"
      case 24 => "bar"
      case 25 => "J"
      case 26 => "J/h"
      case 27 => "W"
      case 28 => "VA"
      case 29 => "var"
      case 30 => "Wh"
      case 31 => "VAh"
      case 32 => "varh"
      case 33 => "A"
      case 34 => "C"
      case 35 => "V"
      case 36 => "V/m"
      case 37 => "F"
      case 38 => "Ω"
      case 39 => "Ωm"
      case 40 => "Wb"
      case 41 => "T"
      case 42 => "A/m"
      case 43 => "H"
      case 44 => "Hz"
      case 45 => "1/(Wh)"
      case 46 => "1/(varh)"
      case 47 => "1/(VAh)"
      case 48 => "V²h"
      case 49 => "A²h"
      case 50 => "kg/s"
      case 51 => "S"
      case 52 => "K"
      case 53 => "1/(V²h)"
      case 54 => "1/(A²h)"
      case 55 => "1/m³"
      case 56 => "%"
      case 57 => "Ah"
      case 60 => "Wh/m³"
      case 61 => "J/m³"
      case 62 => "Mol %"
      case 63 => "g/m³"
      case 64 => "Pa s"
      case 65 => "J/kg"
      case 66 => "g/cm²"
      case 67 => "atm"
      case 70 => "dBm"
      case 71 => "dBµV"
      case 72 => "dB"
      case _ => "")
  }

  /** Only Other and Count lack a symbol, and every symbol is non-empty. */
  lemma SymbolDefined(u: Unit)
    ensures Symbol(u).None? <==> u == Other || u == Count
    ensures Symbol(u).Some? ==> |Symbol(u).value| > 0
  {
    assert IsUnitCode(u);
    if u <= 20 {
    } else if u <= 40 {
    } else if u <= 57 {
    } else if u <= 72 {
    }
  }

  // ---------------------------------------------------------------------------
  // ScalerUnit
  // ---------------------------------------------------------------------------

  /** value = raw value * 10^scaler, in the given unit. */
  datatype ScalerUnit = ScalerUnit(scaler: i8, unit: Unit)

  /** `ScalerUnit::default`: scaler 0, unit Count. */
  function DefaultScalerUnit(): (su: ScalerUnit)
    ensures su.scaler == 0 && su.unit == 255
  {
    ScalerUnit(0, Count)
  }

  /** The Data value `encode` builds: Structure([Integer(scaler), Enum(unit)]). */
  function AsData(su: ScalerUnit): AxdrData.Data {
    AxdrData.Structure([AxdrData.Integer(su.scaler), AxdrData.Enum(EncodeUnit(su.unit))])
  }

  function EncodeScalerUnit(su: ScalerUnit): (s: seq<byte>)
    ensures s == [0x02, 0x02, 0x0F, ToTwos(su.scaler, 1), 0x16, su.unit]
  {
    var s := AxdrData.Encoding(AsData(su));
    ScalerUnitBytes(su);
    s
  }

  lemma ScalerUnitBytes(su: ScalerUnit)
    ensures AxdrData.Encoding(AsData(su)) == [0x02, 0x02, 0x0F, ToTwos(su.scaler, 1), 0x16, su.unit]
  {
    var es := AsData(su).elements;
    AxdrData.StructureBytes(es);
    AxdrData.EncodingListPair(es[0], es[1]);
    AxdrData.IntegerBytes(su.scaler);
  }

  /**
   * `ScalerUnit::parse`: a Data value that must be a structure of exactly two elements,
   * an Integer and then an Enum holding a declared unit code.
   */
  function ParseScalerUnit(input: seq<byte>): (r: Option<(ScalerUnit, seq<byte>)>)
    ensures r.Some? ==> AxdrData.Parse(input).Some? && r.value.1 == AxdrData.Parse(input).value.1
  {
    match AxdrData.Parse(input)
    case None => None
    case Some((d, rest)) =>
      if !d.Structure? || |d.elements| != 2 then None
      else if !d.elements[0].Integer? then None
      else if !d.elements[1].Enum? then None
      else
        match UnitFromByte(d.elements[1].enumValue)
        case None => None
        case Some(u) => Some((ScalerUnit(d.elements[0].i8, u), rest))
  }

  /** What `parse` accepts is exactly the Data value `encode` builds. */
  lemma {:induction false} ParseScalerUnitIsData(input: seq<byte>)
    requires ParseScalerUnit(input).Some?
    ensures AxdrData.Parse(input).value.0 == AsData(ParseScalerUnit(input).value.0)
  {
    var d := AxdrData.Parse(input).value.0;
    assert d.elements == [d.elements[0], d.elements[1]];
  }

  lemma {:induction false} ScalerUnitRoundTrip(su: ScalerUnit, rest: seq<byte>)
    ensures ParseScalerUnit(EncodeScalerUnit(su) + rest) == Some((su, rest))
  {
    AxdrData.ParseEncoding(AsData(su), rest);
  }

  /** Parsing loses nothing: an accepted scaler-unit is followed by the rest of the input. */
  lemma {:induction false} ScalerUnitSound(input: seq<byte>)
    requires ParseScalerUnit(input).Some?
    ensures EncodeScalerUnit(ParseScalerUnit(input).value.0) + ParseScalerUnit(input).value.1 == input
  {
    ParseScalerUnitIsData(input);
    AxdrData.ParseSound(input);
  }

  /** The example from the Green Book: scaler -2, unit Wh (30) is 02 02 0F FE 16 1E. */
  lemma ScalerUnitExample()
    ensures EncodeScalerUnit(ScalerUnit(-2, WattHour)) == [0x02, 0x02, 0x0F, 0xFE, 0x16, 0x1E]
  {
  }
}
