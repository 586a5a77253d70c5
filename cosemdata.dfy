/**
 * src/cosem/data.rs: interface class 1, Data. Attribute 1 is the logical name and
 * attribute 2 a value of any type; the class has no methods.
 */
module DataClass {
  import opened Bytes
  import opened AxdrData
  import Obis
  import G = GetService
  import A = ActionService
  import opened CosemObject

  class DataObject {
    const classId: u16 := 1
    const version: byte := 0
    const logicalName: Obis.ObisCode
    var value: Data

    /** `DataObject::new`. */
    constructor(logicalName: Obis.ObisCode, value: Data)
      ensures this.logicalName == logicalName && this.value == value
    {
      this.logicalName := logicalName;
      this.value := value;
    }

    /** `get_attribute`: ids 1 and 2 are defined, everything else is `ObjectUndefined`. */
    function GetAttribute(id: i8): (r: Result<Data, G.DataAccessResult>)
      reads this
      ensures r.Ok? <==> id == 1 || id == 2
      ensures r.Err? ==> r.error == G.ObjectUndefined
      ensures id == 1 ==> r.value.OctetString? && Obis.Parse(r.value.bytes) == Some((logicalName, []))
      ensures id == 2 ==> r.value == value
    {
      match id
      case 1 => Ok(LogicalNameValue(logicalName))
      case 2 => Ok(value)
      case _ => Err(G.ObjectUndefined)
    }

    /**
     * `set_attribute`: the logical name is read-only, the value takes anything, other ids
     * are undefined; a refused write changes nothing.
     */
    method SetAttribute(id: i8, v: Data) returns (r: Result<(), G.DataAccessResult>)
      modifies this
      ensures id == 1 ==> r == Err(G.ReadWriteDenied)
      ensures id == 2 ==> r == Ok(())
      ensures id != 1 && id != 2 ==> r == Err(G.ObjectUndefined)
      ensures r.Ok? ==> value == v && GetAttribute(id) == Ok(v)
      ensures r.Err? ==> value == old(value)
    {
      match id
      case 1 => r := Err(G.ReadWriteDenied);
      case 2 =>
        value := v;
        r := Ok(());
      case _ => r := Err(G.ObjectUndefined);
    }

    /** `invoke_method`: the class has no methods. */
    method InvokeMethod(id: i8, parameters: Option<Data>) returns (r: Result<Option<Data>, A.ActionResult>)
      ensures r == Err(A.ObjectUndefined)
    {
      r := Err(A.ObjectUndefined);
    }
  }
}
