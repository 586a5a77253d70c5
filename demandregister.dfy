/**
 * src/cosem/demand_register.rs: interface class 5, Demand Register. A current and a last
 * average value sharing one scaler-unit, a status, the capture time of the last value, the
 * start of the current period, and the period length and count. Its methods move the
 * current value into the last one.
 */
module DemandRegisterClass {
  import opened Bytes
  import opened AxdrData
  import Obis
  import Units
  import G = GetService
  import A = ActionService
  import opened CosemObject

  class DemandRegister {
    const classId: u16 := 5
    const version: byte := 0
    const logicalName: Obis.ObisCode
    var currentAverageValue: Data
    var lastAverageValue: Data
    var scalerUnit: Units.ScalerUnit
    var status: Data
    var captureTime: CosemDateTime
    var startTimeCurrent: CosemDateTime
    var period: u32
    var numberOfPeriods: u16

    /** The struct literal with every field given. */
    constructor(logicalName: Obis.ObisCode, current: Data, last: Data, scalerUnit: Units.ScalerUnit, status: Data,
                captureTime: CosemDateTime, startTimeCurrent: CosemDateTime, period: u32, numberOfPeriods: u16)
      ensures this.logicalName == logicalName && currentAverageValue == current && lastAverageValue == last
      ensures this.scalerUnit == scalerUnit && this.status == status && this.captureTime == captureTime
      ensures this.startTimeCurrent == startTimeCurrent && this.period == period && this.numberOfPeriods == numberOfPeriods
    {
      this.logicalName := logicalName;
      currentAverageValue := current;
      lastAverageValue := last;
      this.scalerUnit := scalerUnit;
      this.status := status;
      this.captureTime := captureTime;
      this.startTimeCurrent := startTimeCurrent;
      this.period := period;
      this.numberOfPeriods := numberOfPeriods;
    }

    /** Both average values are numeric, as the interface class requires of them. */
    predicate Valid()
      reads this
    {
      IsNumeric(currentAverageValue) && IsNumeric(lastAverageValue)
    }

    /** `get_attribute`: ids 1-9; other ids are undefined. */
    function GetAttribute(id: i8): (r: Result<Data, G.DataAccessResult>)
      reads this
      ensures r.Ok? <==> 1 <= id <= 9
      ensures r.Err? ==> r.error == G.ObjectUndefined
      ensures id == 1 ==> r.value.OctetString? && Obis.Parse(r.value.bytes) == Some((logicalName, []))
      ensures id == 2 ==> r.value == currentAverageValue
      ensures id == 3 ==> r.value == lastAverageValue
      ensures id == 4 ==> ScalerUnitFrom(r.value) == Some(scalerUnit)
      ensures id == 5 ==> r.value == status
      ensures id == 6 ==> r.value == DateTime(captureTime)
      ensures id == 7 ==> r.value == DateTime(startTimeCurrent)
      ensures id == 8 ==> r.value == DoubleLongUnsigned(period)
      ensures id == 9 ==> r.value == LongUnsigned(numberOfPeriods)
    {
      ScalerUnitRoundTrip(scalerUnit);
      match id
      case 1 => Ok(LogicalNameValue(logicalName))
      case 2 => Ok(currentAverageValue)
      case 3 => Ok(lastAverageValue)
      case 4 => Ok(ScalerUnitValue(scalerUnit))
      case 5 => Ok(status)
      case 6 => Ok(DateTime(captureTime))
      case 7 => Ok(DateTime(startTimeCurrent))
      case 8 => Ok(DoubleLongUnsigned(period))
      case 9 => Ok(LongUnsigned(numberOfPeriods))
      case _ => Err(G.ObjectUndefined)
    }

    /** The fields other than the scaler-unit are as they were. */
    twostate predicate OthersKept()
      reads this
    {
      && currentAverageValue == old(currentAverageValue) && lastAverageValue == old(lastAverageValue)
      && status == old(status) && captureTime == old(captureTime) && startTimeCurrent == old(startTimeCurrent)
      && period == old(period) && numberOfPeriods == old(numberOfPeriods)
    }

    /**
     * The effect of a write to an attribute other than 4: each field takes the value when
     * it has the field's type, and keeps its old value otherwise; the scaler-unit is left alone.
     */
    twostate predicate OtherWritten(id: i8, v: Data)
      reads this
    {
      && scalerUnit == old(scalerUnit)
      && currentAverageValue == (if id == 2 && IsNumeric(v) then v else old(currentAverageValue))
      && lastAverageValue == (if id == 3 && IsNumeric(v) then v else old(lastAverageValue))
      && status == (if id == 5 then v else old(status))
      && captureTime == (if id == 6 && v.DateTime? then v.dateTime else old(captureTime))
      && startTimeCurrent == (if id == 7 && v.DateTime? then v.dateTime else old(startTimeCurrent))
      && period == (if id == 8 && v.DoubleLongUnsigned? then v.u32 else old(period))
      && numberOfPeriods == (if id == 9 && v.LongUnsigned? then v.u16 else old(numberOfPeriods))
    }

    /**
     * `set_attribute` as written. Attribute 4 stores the scaler before it checks the unit
     * code, so a refused scaler-unit with a reserved unit still replaces the scaler
     * (`WriteScalerFirst`). Every other refusal changes nothing.
     */
    method SetAttribute(id: i8, v: Data) returns (r: Result<(), G.DataAccessResult>)
      modifies this
      ensures id != 4 ==> r == WriteOutcome(id, v) && OtherWritten(id, v)
      ensures id == 4 ==> (r.Ok? <==> ScalerUnitFrom(v).Some?) && (r.Err? ==> r.error == G.TypeUnmatched)
      ensures id == 4 ==> scalerUnit == WriteScalerFirst(old(scalerUnit), v).0 && OthersKept()
      ensures r.Ok? ==> GetAttribute(id) == Ok(v)
      ensures old(Valid()) ==> Valid()
    {
      match id
      case 1 => r := Err(G.ReadWriteDenied);
      case 2 =>
        if IsNumeric(v) {
          currentAverageValue := v;
          r := Ok(());
        } else {
          r := Err(G.TypeUnmatched);
        }
      case 3 =>
        if IsNumeric(v) {
          lastAverageValue := v;
          r := Ok(());
        } else {
          r := Err(G.TypeUnmatched);
        }
      case 4 =>
        r := Err(G.TypeUnmatched);
        if v.Structure? && |v.elements| == 2 && v.elements[0].Integer? && v.elements[1].Enum? {
          scalerUnit := scalerUnit.(scaler := v.elements[0].i8);
          match Units.UnitFromByte(v.elements[1].enumValue) {
            case Some(u) =>
              scalerUnit := scalerUnit.(unit := u);
              ScalerUnitFromSound(v);
              r := Ok(());
            case None =>
          }
        }
      case 5 =>
        status := v;
        r := Ok(());
      case 6 =>
        if v.DateTime? {
          captureTime := v.dateTime;
          r := Ok(());
        } else {
          r := Err(G.TypeUnmatched);
        }
      case 7 =>
        if v.DateTime? {
          startTimeCurrent := v.dateTime;
          r := Ok(());
        } else {
          r := Err(G.TypeUnmatched);
        }
      case 8 =>
        if v.DoubleLongUnsigned? {
          period := v.u32;
          r := Ok(());
        } else {
          r := Err(G.TypeUnmatched);
        }
      case 9 =>
        if v.LongUnsigned? {
          numberOfPeriods := v.u16;
          r := Ok(());
        } else {
          r := Err(G.TypeUnmatched);
        }
      case _ => r := Err(G.ObjectUndefined);
    }

    /**
     * Attribute 4 written the way `Register` writes its scaler-unit
     * (src/cosem/register.rs:162-181): decoded first and stored only when valid, so every
     * refusal changes nothing. The other attributes behave as in `SetAttribute`.
     */
    method SetAttributeAtomic(id: i8, v: Data) returns (r: Result<(), G.DataAccessResult>)
      modifies this
      ensures id != 4 ==> r == WriteOutcome(id, v) && OtherWritten(id, v)
      ensures id == 4 ==> (r.Ok? <==> ScalerUnitFrom(v).Some?) && (r.Err? ==> r.error == G.TypeUnmatched)
      ensures id == 4 ==> OthersKept() && scalerUnit == (if r.Ok? then ScalerUnitFrom(v).value else old(scalerUnit))
      ensures r.Ok? ==> GetAttribute(id) == Ok(v)
      ensures r.Err? ==> scalerUnit == old(scalerUnit) && OthersKept()
      ensures old(Valid()) ==> Valid()
    {
      if id == 4 {
        match ScalerUnitFrom(v) {
          case Some(su) =>
            ScalerUnitFromSound(v);
            scalerUnit := su;
            r := Ok(());
          case None =>
            r := Err(G.TypeUnmatched);
        }
      } else {
        r := SetAttribute(id, v);
      }
    }

    /** A reserved unit code: refused, and yet the scaler has been replaced. */
    method ReservedUnitChangesScaler(scaler: i8) returns (r: Result<(), G.DataAccessResult>)
      requires scalerUnit.scaler != scaler
      modifies this
      ensures r == Err(G.TypeUnmatched)
      ensures scalerUnit.scaler == scaler && scalerUnit.scaler != old(scalerUnit.scaler)
    {
      ReservedUnitKeepsNewScaler(scalerUnit, scaler);
      r := SetAttribute(4, Structure([Integer(scaler), Enum(0)]));
    }

    /** The same value refused by the atomic write leaves the scaler alone. */
    method ReservedUnitRefusedAtomically(scaler: i8) returns (r: Result<(), G.DataAccessResult>)
      modifies this
      ensures r == Err(G.TypeUnmatched)
      ensures scalerUnit == old(scalerUnit)
    {
      r := SetAttributeAtomic(4, Structure([Integer(scaler), Enum(0)]));
    }

    /**
     * `invoke_method`. Method 1 (reset) refuses a non-numeric parameter and otherwise moves
     * the current value into the last one and stores the parameter (or
     * DoubleLongUnsigned(0)); method 2 (next period) moves it and stores 0; method 3 (reset
     * to maximum) stores `MaximumValue(...)` as the current value and 0 as the last one. Each
     * stamps the capture time with the unspecified date-time, method 2 the period start too,
     * and answers `Integer(0)`. The float arithmetic of method 3 is given by its result
     * (`rawMax`, `float32Bits`, `float64Bits`, see `MaximumValue`).
     */
    method InvokeMethod(id: i8, parameters: Option<Data>, rawMax: int, float32Bits: u32, float64Bits: u64)
      returns (r: Result<Option<Data>, A.ActionResult>)
      modifies this
      ensures !(1 <= id <= 3) ==> r == Err(A.ObjectUndefined)
      ensures id == 1 ==> (r.Ok? <==> IsNumeric(ResetValue(parameters)))
      ensures id == 1 && r.Err? ==> r.error == A.TypeUnmatched
      ensures (id == 2 || id == 3) ==> r.Ok?
      ensures r.Ok? ==> r.value == Some(Integer(0)) && captureTime == WildcardDateTime
      ensures r.Ok? && id == 1 ==> lastAverageValue == old(currentAverageValue) && currentAverageValue == ResetValue(parameters)
      ensures r.Ok? && id == 2 ==> lastAverageValue == old(currentAverageValue) && currentAverageValue == DoubleLongUnsigned(0)
      ensures r.Ok? && id == 3 ==> lastAverageValue == DoubleLongUnsigned(0)
      ensures r.Ok? && id == 3 ==> currentAverageValue == MaximumValue(old(currentAverageValue), rawMax, float32Bits, float64Bits)
      ensures startTimeCurrent == (if r.Ok? && id == 2 then WildcardDateTime else old(startTimeCurrent))
      ensures r.Err? ==> currentAverageValue == old(currentAverageValue) && lastAverageValue == old(lastAverageValue)
      ensures r.Err? ==> captureTime == old(captureTime)
      ensures scalerUnit == old(scalerUnit) && status == old(status)
      ensures period == old(period) && numberOfPeriods == old(numberOfPeriods)
      ensures r.Ok? && id == 3 ==> Valid()
      ensures old(Valid()) ==> Valid()
    {
      match id
      case 1 =>
        var newValue := ResetValue(parameters);
        if !IsNumeric(newValue) {
          return Err(A.TypeUnmatched);
        }
        lastAverageValue := currentAverageValue;
        currentAverageValue := newValue;
        captureTime := WildcardDateTime;
        r := Ok(Some(Integer(0)));
      case 2 =>
        lastAverageValue := currentAverageValue;
        currentAverageValue := DoubleLongUnsigned(0);
        captureTime := WildcardDateTime;
        startTimeCurrent := WildcardDateTime;
        r := Ok(Some(Integer(0)));
      case 3 =>
        currentAverageValue := MaximumValue(currentAverageValue, rawMax, float32Bits, float64Bits);
        lastAverageValue := DoubleLongUnsigned(0);
        captureTime := WildcardDateTime;
        r := Ok(Some(Integer(0)));
      case _ => r := Err(A.ObjectUndefined);
    }
  }

  /** The outcome `set_attribute` reports for the attributes other than 4; it does not depend on the state. */
  function WriteOutcome(id: i8, v: Data): (r: Result<(), G.DataAccessResult>)
    requires id != 4
    ensures r.Ok? <==> (id == 2 && IsNumeric(v)) || (id == 3 && IsNumeric(v)) || id == 5
                       || ((id == 6 || id == 7) && v.DateTime?) || (id == 8 && v.DoubleLongUnsigned?)
                       || (id == 9 && v.LongUnsigned?)
    ensures r.Err? ==> r.error == (if id == 1 then G.ReadWriteDenied else if 2 <= id <= 9 then G.TypeUnmatched else G.ObjectUndefined)
  {
    match id
    case 1 => Err(G.ReadWriteDenied)
    case 2 => if IsNumeric(v) then Ok(()) else Err(G.TypeUnmatched)
    case 3 => if IsNumeric(v) then Ok(()) else Err(G.TypeUnmatched)
    case 5 => Ok(())
    case 6 => if v.DateTime? then Ok(()) else Err(G.TypeUnmatched)
    case 7 => if v.DateTime? then Ok(()) else Err(G.TypeUnmatched)
    case 8 => if v.DoubleLongUnsigned? then Ok(()) else Err(G.TypeUnmatched)
    case 9 => if v.LongUnsigned? then Ok(()) else Err(G.TypeUnmatched)
    case _ => Err(G.ObjectUndefined)
  }

  // ---------------------------------------------------------------------------
  // reset_to_maximum: the stored maximum takes the type of the current value
  // ---------------------------------------------------------------------------

  /** The range of an integral variant: the bounds of its Rust type. */
  function Low(d: Data): int
    requires IsIntegral(d)
  {
    if d.Integer? then -0x80
    else if d.Long? then -0x8000
    else if d.DoubleLong? then -0x8000_0000
    else if d.Long64? then -0x8000_0000_0000_0000
    else 0
  }

  function High(d: Data): (h: int)
    requires IsIntegral(d)
    ensures Low(d) < h
  {
    if d.Integer? then 0x7F
    else if d.Unsigned? then 0xFF
    else if d.Long? then 0x7FFF
    else if d.LongUnsigned? then 0xFFFF
    else if d.DoubleLong? then 0x7FFF_FFFF
    else if d.DoubleLongUnsigned? then 0xFFFF_FFFF
    else if d.Long64? then 0x7FFF_FFFF_FFFF_FFFF
    else 0xFFFF_FFFF_FFFF_FFFF
  }

  /** Rust's float-to-integer `as`: values out of range saturate at the nearer bound. */
  function Clamp(x: int, lo: int, hi: int): (y: int)
    requires lo <= hi
    ensures lo <= y <= hi
    ensures lo <= x <= hi ==> y == x
    ensures x < lo ==> y == lo
    ensures hi < x ==> y == hi
  {
    if x < lo then lo else if hi < x then hi else x
  }

  /**
   * The value method 3 stores: `raw_max` converted back to the variant of the current
   * value. `rawMax` is `max_val / 10^scaler` rounded toward zero; `float32Bits` and
   * `float64Bits` are the IEEE patterns of `raw_max as f32` and of `raw_max`. A current
   * value that is not numeric is replaced by DoubleLongUnsigned(0).
   */
  function MaximumValue(current: Data, rawMax: int, float32Bits: u32, float64Bits: u64): (d: Data)
    ensures IsNumeric(d)
    ensures IsNumeric(current) ==> TypeOf(d) == TypeOf(current)
    ensures !IsNumeric(current) ==> d == DoubleLongUnsigned(0)
    ensures IsIntegral(current) ==> IsIntegral(d) && IntegralValue(d) == Clamp(rawMax, Low(current), High(current))
    ensures current.Float32? ==> d == Float32(float32Bits)
    ensures current.Float64? ==> d == Float64(float64Bits)
  {
    match current
    case Integer(_) => Integer(Clamp(rawMax, -0x80, 0x7F))
    case Unsigned(_) => Unsigned(Clamp(rawMax, 0, 0xFF))
    case Long(_) => Long(Clamp(rawMax, -0x8000, 0x7FFF))
    case LongUnsigned(_) => LongUnsigned(Clamp(rawMax, 0, 0xFFFF))
    case DoubleLong(_) => DoubleLong(Clamp(rawMax, -0x8000_0000, 0x7FFF_FFFF))
    case DoubleLongUnsigned(_) => DoubleLongUnsigned(Clamp(rawMax, 0, 0xFFFF_FFFF))
    case Long64(_) => Long64(Clamp(rawMax, -0x8000_0000_0000_0000, 0x7FFF_FFFF_FFFF_FFFF))
    case Long64Unsigned(_) => Long64Unsigned(Clamp(rawMax, 0, 0xFFFF_FFFF_FFFF_FFFF))
    case Float32(_) => Float32(float32Bits)
    case Float64(_) => Float64(float64Bits)
    case _ => DoubleLongUnsigned(0)
  }

  /**
   * When the maximum fits the current value's type it is stored exactly; in particular,
   * when it is the current value itself nothing changes.
   */
  lemma {:induction false} MaximumKeepsFittingValue(current: Data, f32: u32, f64: u64)
    requires IsIntegral(current)
    ensures MaximumValue(current, IntegralValue(current), f32, f64) == current
  {
    var d := MaximumValue(current, IntegralValue(current), f32, f64);
    assert IntegralValue(d) == IntegralValue(current);
  }
}
