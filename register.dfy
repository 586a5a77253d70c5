/**
 * src/cosem/register.rs: interface class 3, Register. A numeric value with its scaler and
 * unit; method 1 resets the value.
 */
module RegisterClass {
  import opened Bytes
  import opened AxdrData
  import Obis
  import Units
  import G = GetService
  import A = ActionService
  import opened CosemObject

  class Register {
    const classId: u16 := 3
    const version: byte := 0
    const logicalName: Obis.ObisCode
    var value: Data
    var scalerUnit: Units.ScalerUnit

    /** `Register::new`. */
    constructor(logicalName: Obis.ObisCode, value: Data, scalerUnit: Units.ScalerUnit)
      ensures this.logicalName == logicalName && this.value == value && this.scalerUnit == scalerUnit
    {
      this.logicalName := logicalName;
      this.value := value;
      this.scalerUnit := scalerUnit;
    }

    /** `get_attribute`: logical name, value and scaler-unit; other ids are undefined. */
    function GetAttribute(id: i8): (r: Result<Data, G.DataAccessResult>)
      reads this
      ensures r.Ok? <==> 1 <= id <= 3
      ensures r.Err? ==> r.error == G.ObjectUndefined
      ensures id == 1 ==> r.value.OctetString? && Obis.Parse(r.value.bytes) == Some((logicalName, []))
      ensures id == 2 ==> r.value == value
      ensures id == 3 ==> ScalerUnitFrom(r.value) == Some(scalerUnit)
    {
      ScalerUnitRoundTrip(scalerUnit);
      match id
      case 1 => Ok(LogicalNameValue(logicalName))
      case 2 => Ok(value)
      case 3 => Ok(ScalerUnitValue(scalerUnit))
      case _ => Err(G.ObjectUndefined)
    }

    /**
     * `set_attribute`: the value must be numeric, the scaler-unit a valid pair, and a
     * refused write changes nothing. What was written is what is read back.
     */
    method SetAttribute(id: i8, v: Data) returns (r: Result<(), G.DataAccessResult>)
      modifies this
      ensures id == 1 ==> r == Err(G.ReadWriteDenied)
      ensures id == 2 ==> (r.Ok? <==> IsNumeric(v))
      ensures id == 3 ==> (r.Ok? <==> ScalerUnitFrom(v).Some?)
      ensures (id == 2 || id == 3) && r.Err? ==> r.error == G.TypeUnmatched
      ensures !(1 <= id <= 3) ==> r == Err(G.ObjectUndefined)
      ensures r.Ok? ==> GetAttribute(id) == Ok(v)
      ensures id == 2 && r.Ok? ==> value == v && scalerUnit == old(scalerUnit)
      ensures id == 3 && r.Ok? ==> scalerUnit == ScalerUnitFrom(v).value && value == old(value)
      ensures r.Err? ==> value == old(value) && scalerUnit == old(scalerUnit)
    {
      match id
      case 1 => r := Err(G.ReadWriteDenied);
      case 2 =>
        if IsNumeric(v) {
          value := v;
          r := Ok(());
        } else {
          r := Err(G.TypeUnmatched);
        }
      case 3 =>
        match ScalerUnitFrom(v) {
          case Some(su) =>
            ScalerUnitFromSound(v);
            scalerUnit := su;
            r := Ok(());
          case None =>
            r := Err(G.TypeUnmatched);
        }
      case _ => r := Err(G.ObjectUndefined);
    }

    /**
     * `invoke_method`: method 1, reset, stores its parameter (or DoubleLongUnsigned(0)) when
     * that is numeric and returns nothing; the scaler-unit is never touched.
     */
    method InvokeMethod(id: i8, parameters: Option<Data>) returns (r: Result<Option<Data>, A.ActionResult>)
      modifies this
      ensures id == 1 ==> (r.Ok? <==> IsNumeric(ResetValue(parameters)))
      ensures id == 1 && r.Err? ==> r.error == A.TypeUnmatched
      ensures id != 1 ==> r == Err(A.ObjectUndefined)
      ensures r.Ok? ==> r.value == None && value == ResetValue(parameters)
      ensures r.Err? ==> value == old(value)
      ensures scalerUnit == old(scalerUnit)
    {
      if id == 1 {
        var resetValue := ResetValue(parameters);
        if IsNumeric(resetValue) {
          value := resetValue;
          r := Ok(None);
        } else {
          r := Err(A.TypeUnmatched);
        }
      } else {
        r := Err(A.ObjectUndefined);
      }
    }
  }
}
