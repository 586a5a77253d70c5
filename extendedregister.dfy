/**
 * src/cosem/extended_register.rs: interface class 4, Extended Register. A Register with a
 * status and the time its value was captured; reset also clears the capture time.
 */
module ExtendedRegisterClass {
  import opened Bytes
  import opened AxdrData
  import Obis
  import Units
  import G = GetService
  import A = ActionService
  import opened CosemObject

  class ExtendedRegister {
    const classId: u16 := 4
    const version: byte := 0
    const logicalName: Obis.ObisCode
    var value: Data
    var scalerUnit: Units.ScalerUnit
    var status: Data
    var captureTime: CosemDateTime

    /** `ExtendedRegister::new`. */
    constructor(logicalName: Obis.ObisCode, value: Data, scalerUnit: Units.ScalerUnit, status: Data, captureTime: CosemDateTime)
      ensures this.logicalName == logicalName && this.value == value && this.scalerUnit == scalerUnit
      ensures this.status == status && this.captureTime == captureTime
    {
      this.logicalName := logicalName;
      this.value := value;
      this.scalerUnit := scalerUnit;
      this.status := status;
      this.captureTime := captureTime;
    }

    /** `get_attribute`: ids 1-5; other ids are undefined. */
    function GetAttribute(id: i8): (r: Result<Data, G.DataAccessResult>)
      reads this
      ensures r.Ok? <==> 1 <= id <= 5
      ensures r.Err? ==> r.error == G.ObjectUndefined
      ensures id == 1 ==> r.value.OctetString? && Obis.Parse(r.value.bytes) == Some((logicalName, []))
      ensures id == 2 ==> r.value == value
      ensures id == 3 ==> ScalerUnitFrom(r.value) == Some(scalerUnit)
      ensures id == 4 ==> r.value == status
      ensures id == 5 ==> r.value == DateTime(captureTime)
    {
      ScalerUnitRoundTrip(scalerUnit);
      match id
      case 1 => Ok(LogicalNameValue(logicalName))
      case 2 => Ok(value)
      case 3 => Ok(ScalerUnitValue(scalerUnit))
      case 4 => Ok(status)
      case 5 => Ok(DateTime(captureTime))
      case _ => Err(G.ObjectUndefined)
    }

    /** The fields other than the scaler-unit are as they were. */
    twostate predicate OthersKept()
      reads this
    {
      value == old(value) && status == old(status) && captureTime == old(captureTime)
    }

    /**
     * The effect of a write to an attribute other than 3: a numeric value, any status, a
     * date-time capture time; the scaler-unit is left alone.
     */
    twostate predicate OtherWritten(id: i8, v: Data)
      reads this
    {
      && scalerUnit == old(scalerUnit)
      && value == (if id == 2 && IsNumeric(v) then v else old(value))
      && status == (if id == 4 then v else old(status))
      && captureTime == (if id == 5 && v.DateTime? then v.dateTime else old(captureTime))
    }

    /**
     * `set_attribute` as written. Attribute 3 stores the scaler before it checks the unit
     * code, so a refused scaler-unit with a reserved unit still replaces the scaler
     * (`WriteScalerFirst`). Every other refusal changes nothing.
     */
    method SetAttribute(id: i8, v: Data) returns (r: Result<(), G.DataAccessResult>)
      modifies this
      ensures id != 3 ==> r == WriteOutcome(id, v) && OtherWritten(id, v)
      ensures id == 3 ==> (r.Ok? <==> ScalerUnitFrom(v).Some?) && (r.Err? ==> r.error == G.TypeUnmatched)
      ensures id == 3 ==> scalerUnit == WriteScalerFirst(old(scalerUnit), v).0 && OthersKept()
      ensures r.Ok? ==> GetAttribute(id) == Ok(v)
    {
      match id
      case 1 => r := Err(G.ReadWriteDenied);
      case 2 =>
        if IsNumeric(v) {
          value := v;
          r := Ok(());
        } else {
          r := Err(G.TypeUnmatched);
        }
      case 3 =>
        r := Err(G.TypeUnmatched);
        if v.Structure? && |v.elements| == 2 && v.elements[0].Integer? && v.elements[1].Enum? {
          scalerUnit := scalerUnit.(scaler := v.elements[0].i8);
          match Units.UnitFromByte(v.elements[1].enumValue) {
            case Some(u) =>
              scalerUnit := scalerUnit.(unit := u);
              ScalerUnitFromSound(v);
              r := Ok(());
            case None =>
          }
        }
      case 4 =>
        status := v;
        r := Ok(());
      case 5 =>
        if v.DateTime? {
          captureTime := v.dateTime;
          r := Ok(());
        } else {
          r := Err(G.TypeUnmatched);
        }
      case _ => r := Err(G.ObjectUndefined);
    }

    /**
     * Attribute 3 written the way `Register` writes it (src/cosem/register.rs:162-181): the
     * pair is decoded first and stored only when it is valid, so any refusal changes
     * nothing. The other attributes behave as in `SetAttribute`.
     */
    method SetAttributeAtomic(id: i8, v: Data) returns (r: Result<(), G.DataAccessResult>)
      modifies this
      ensures id != 3 ==> r == WriteOutcome(id, v) && OtherWritten(id, v)
      ensures id == 3 ==> (r.Ok? <==> ScalerUnitFrom(v).Some?) && (r.Err? ==> r.error == G.TypeUnmatched)
      ensures id == 3 ==> OthersKept() && scalerUnit == (if r.Ok? then ScalerUnitFrom(v).value else old(scalerUnit))
      ensures r.Ok? ==> GetAttribute(id) == Ok(v)
      ensures r.Err? ==> scalerUnit == old(scalerUnit) && OthersKept()
    {
      if id == 3 {
        match ScalerUnitFrom(v) {
          case Some(su) =>
            ScalerUnitFromSound(v);
            scalerUnit := su;
            r := Ok(());
          case None =>
            r := Err(G.TypeUnmatched);
        }
      } else {
        r := SetAttribute(id, v);
        assert r.Err? ==> id != 4 && !(id == 2 && IsNumeric(v)) && !(id == 5 && v.DateTime?);
      }
    }

    /** A reserved unit code: refused, and yet the scaler has been replaced. */
    method ReservedUnitChangesScaler(scaler: i8) returns (r: Result<(), G.DataAccessResult>)
      requires scalerUnit.scaler != scaler
      modifies this
      ensures r == Err(G.TypeUnmatched)
      ensures scalerUnit.scaler == scaler && scalerUnit.scaler != old(scalerUnit.scaler)
    {
      ReservedUnitKeepsNewScaler(scalerUnit, scaler);
      r := SetAttribute(3, Structure([Integer(scaler), Enum(0)]));
    }

    /** The same value refused by the atomic write leaves the scaler alone. */
    method ReservedUnitRefusedAtomically(scaler: i8) returns (r: Result<(), G.DataAccessResult>)
      modifies this
      ensures r == Err(G.TypeUnmatched)
      ensures scalerUnit == old(scalerUnit)
    {
      r := SetAttributeAtomic(3, Structure([Integer(scaler), Enum(0)]));
    }

    /**
     * `invoke_method`: method 1, reset, stores its parameter (or DoubleLongUnsigned(0)) when
     * numeric and clears the capture time; a non-numeric parameter changes nothing.
     */
    method InvokeMethod(id: i8, parameters: Option<Data>) returns (r: Result<Option<Data>, A.ActionResult>)
      modifies this
      ensures id == 1 ==> (r.Ok? <==> IsNumeric(ResetValue(parameters)))
      ensures id == 1 && r.Err? ==> r.error == A.TypeUnmatched
      ensures id != 1 ==> r == Err(A.ObjectUndefined)
      ensures r.Ok? ==> r.value == None && value == ResetValue(parameters) && captureTime == ClearedDateTime
      ensures r.Err? ==> value == old(value) && captureTime == old(captureTime)
      ensures scalerUnit == old(scalerUnit) && status == old(status)
    {
      if id == 1 {
        var resetValue := ResetValue(parameters);
        if IsNumeric(resetValue) {
          value := resetValue;
          captureTime := ClearedDateTime;
          r := Ok(None);
        } else {
          r := Err(A.TypeUnmatched);
        }
      } else {
        r := Err(A.ObjectUndefined);
      }
    }
  }

  /** The outcome `set_attribute` reports for the attributes other than 3; it does not depend on the state. */
  function WriteOutcome(id: i8, v: Data): (r: Result<(), G.DataAccessResult>)
    requires id != 3
    ensures r.Ok? <==> (id == 2 && IsNumeric(v)) || id == 4 || (id == 5 && v.DateTime?)
    ensures r.Err? ==> r.error == (if id == 1 then G.ReadWriteDenied else if 2 <= id <= 5 then G.TypeUnmatched else G.ObjectUndefined)
  {
    if id == 1 then Err(G.ReadWriteDenied)
    else if id == 2 then (if IsNumeric(v) then Ok(()) else Err(G.TypeUnmatched))
    else if id == 4 then Ok(())
    else if id == 5 then (if v.DateTime? then Ok(()) else Err(G.TypeUnmatched))
    else Err(G.ObjectUndefined)
  }
}
