/**
 * src/cosem/profile_generic.rs: interface class 7, Profile Generic. A bounded buffer of
 * captured rows, one column per capture object. FIFO drops the oldest row when full, LIFO
 * the newest, and the four sorted modes drop the worst row by the value in the sort column.
 */
module ProfileGenericClass {
  import opened Bytes
  import opened AxdrData
  import Obis
  import G = GetService
  import A = ActionService
  import opened CosemObject

  // ---------------------------------------------------------------------------
  // SortMethod (lines 116-165)
  // ---------------------------------------------------------------------------

  datatype SortMethod = Fifo | Lifo | Largest | Smallest | NearestToZero | FarthestFromZero

  /** `sort_method as u8`: the declared discriminants 1-6. */
  function SortMethodToByte(m: SortMethod): (b: byte)
    ensures 1 <= b <= 6
  {
    match m
    case Fifo => 1
    case Lifo => 2
    case Largest => 3
    case Smallest => 4
    case NearestToZero => 5
    case FarthestFromZero => 6
  }

  /** `SortMethod::from_u8`: 1-6, the inverse of the discriminant; anything else TypeUnmatched. */
  function SortMethodFromByte(b: byte): (r: Result<SortMethod, G.DataAccessResult>)
    ensures r.Ok? <==> 1 <= b <= 6
    ensures r.Ok? ==> SortMethodToByte(r.value) == b
    ensures r.Err? ==> r.error == G.TypeUnmatched
  {
    match b
    case 1 => Ok(Fifo)
    case 2 => Ok(Lifo)
    case 3 => Ok(Largest)
    case 4 => Ok(Smallest)
    case 5 => Ok(NearestToZero)
    case 6 => Ok(FarthestFromZero)
    case _ => Err(G.TypeUnmatched)
  }

  lemma SortMethodRoundTrip(m: SortMethod)
    ensures SortMethodFromByte(SortMethodToByte(m)) == Ok(m)
  {
  }

  /** The four modes that drop a row by its value rather than by its position. */
  predicate IsSorted(m: SortMethod) {
    !m.Fifo? && !m.Lifo?
  }

  // ---------------------------------------------------------------------------
  // Capture object definitions as Data (attributes 3 and 6)
  // ---------------------------------------------------------------------------

  /** A column of the buffer: an attribute (or an element of it) of another object. */
  datatype CaptureObjectDefinition = CaptureObjectDefinition(classId: u16, logicalName: Obis.ObisCode, attributeIndex: i8, dataIndex: u16)

  /** `Structure([LongUnsigned, OctetString(6), Integer, LongUnsigned])`, as the getter writes it. */
  function CaptureObjectValue(c: CaptureObjectDefinition): (d: Data)
    ensures CaptureObjectShape(d)
  {
    Structure([LongUnsigned(c.classId), LogicalNameValue(c.logicalName), Integer(c.attributeIndex), LongUnsigned(c.dataIndex)])
  }

  /** The four fields with the types the setter checks for, in order. */
  predicate CaptureObjectShape(d: Data) {
    && d.Structure? && |d.elements| == 4
    && d.elements[0].LongUnsigned?
    && d.elements[1].OctetString? && |d.elements[1].bytes| == 6
    && d.elements[2].Integer?
    && d.elements[3].LongUnsigned?
  }

  /** The setter's decoding of one definition; it accepts exactly what the getter can produce. */
  function CaptureObjectFrom(d: Data): (r: Option<CaptureObjectDefinition>)
    ensures r.Some? <==> CaptureObjectShape(d)
    ensures r.Some? ==> CaptureObjectValue(r.value) == d
  {
    if CaptureObjectShape(d) then
      var es := d.elements;
      var ln := es[1].bytes;
      var code := Obis.ObisCode(ln[0], ln[1], ln[2], ln[3], ln[4], ln[5]);
      assert Obis.Encode(code) == ln;
      assert es == [es[0], es[1], es[2], es[3]];
      Some(CaptureObjectDefinition(es[0].u16, code, es[2].i8, es[3].u16))
    else None
  }

  lemma CaptureObjectRoundTrip(c: CaptureObjectDefinition)
    ensures CaptureObjectFrom(CaptureObjectValue(c)) == Some(c)
  {
  }

  /** The getter's list of definitions. */
  function CaptureObjectsValue(cs: seq<CaptureObjectDefinition>): (ds: seq<Data>)
    ensures |ds| == |cs|
    ensures forall i | 0 <= i < |cs| :: ds[i] == CaptureObjectValue(cs[i])
  {
    seq(|cs|, i requires 0 <= i < |cs| => CaptureObjectValue(cs[i]))
  }

  /** The setter's list decoding: every element must decode, or the whole list is refused. */
  function CaptureObjectsFrom(objects: seq<Data>): (r: Option<seq<CaptureObjectDefinition>>)
    ensures r.Some? <==> forall i | 0 <= i < |objects| :: CaptureObjectFrom(objects[i]).Some?
    ensures r.Some? ==> |r.value| == |objects|
    ensures r.Some? ==> forall i | 0 <= i < |objects| :: CaptureObjectFrom(objects[i]) == Some(r.value[i])
  {
    if |objects| == 0 then Some([])
    else
      match CaptureObjectFrom(objects[0])
      case None => None
      case Some(c) =>
        match CaptureObjectsFrom(objects[1..])
        case None =>
          assert exists i | 1 <= i < |objects| :: CaptureObjectFrom(objects[i]).None? by {
            var j :| 0 <= j < |objects[1..]| && CaptureObjectFrom(objects[1..][j]).None?;
            assert objects[1..][j] == objects[j + 1];
          }
          None
        case Some(cs) =>
          assert forall i | 1 <= i < |objects| :: objects[i] == objects[1..][i - 1];
          Some([c] + cs)
  }

  /** Attribute 3 read and written back gives the same definitions. */
  lemma {:induction false} CaptureObjectsRoundTrip(cs: seq<CaptureObjectDefinition>)
    ensures CaptureObjectsFrom(CaptureObjectsValue(cs)) == Some(cs)
  {
    var ds := CaptureObjectsValue(cs);
    forall i | 0 <= i < |ds| ensures CaptureObjectFrom(ds[i]) == Some(cs[i]) {
      CaptureObjectRoundTrip(cs[i]);
    }
    var r := CaptureObjectsFrom(ds);
    assert r.Some?;
    assert forall i | 0 <= i < |cs| :: r.value[i] == cs[i] by {
      forall i | 0 <= i < |cs| ensures r.value[i] == cs[i] {
        assert CaptureObjectFrom(ds[i]) == Some(r.value[i]);
      }
    }
    assert r.value == cs;
  }

  /** And an accepted list is exactly what the getter would send for the decoded definitions. */
  lemma {:induction false} CaptureObjectsSound(objects: seq<Data>)
    requires CaptureObjectsFrom(objects).Some?
    ensures CaptureObjectsValue(CaptureObjectsFrom(objects).value) == objects
  {
  }

  /**
   * The loop of `set_attribute(3)`: it decodes the definitions one by one and gives up at
   * the first element that does not decode.
   */
  method ParseCaptureObjects(objects: seq<Data>) returns (r: Option<seq<CaptureObjectDefinition>>)
    ensures r == CaptureObjectsFrom(objects)
  {
    var captureObjects: seq<CaptureObjectDefinition> := [];
    var i := 0;
    while i < |objects|
      invariant 0 <= i <= |objects| && |captureObjects| == i
      invariant forall k | 0 <= k < i :: CaptureObjectFrom(objects[k]) == Some(captureObjects[k])
    {
      var c := CaptureObjectFrom(objects[i]);
      if c.None? {
        return None;
      }
      captureObjects := captureObjects + [c.value];
      i := i + 1;
    }
    var expected := CaptureObjectsFrom(objects);
    assert expected.Some?;
    assert forall k | 0 <= k < |objects| :: expected.value[k] == captureObjects[k] by {
      forall k | 0 <= k < |objects| ensures expected.value[k] == captureObjects[k] {
        assert CaptureObjectFrom(objects[k]) == Some(expected.value[k]);
      }
    }
    assert expected.value == captureObjects;
    r := Some(captureObjects);
  }

  // ---------------------------------------------------------------------------
  // Choosing the row a sorted mode drops (lines 844-938)
  // ---------------------------------------------------------------------------

  /** The first position of `x` in `s`, as `Iterator::position` finds it. */
  function Position<T(==)>(s: seq<T>, x: T): (r: Option<nat>)
    ensures r.Some? <==> x in s
    ensures r.Some? ==> r.value < |s| && s[r.value] == x && forall j | 0 <= j < r.value :: s[j] != x
  {
    if |s| == 0 then None
    else if s[0] == x then Some(0)
    else
      match Position(s[1..], x)
      case None => None
      case Some(j) =>
        assert forall k | 1 <= k <= j :: s[k] == s[1..][k - 1];
        Some(j + 1)
  }

  /** `find_sort_column_index`: the first capture object equal to the sort object. */
  function SortColumn(captureObjects: seq<CaptureObjectDefinition>, sortObject: Option<CaptureObjectDefinition>): (r: Option<nat>)
    ensures r.Some? <==> sortObject.Some? && sortObject.value in captureObjects
    ensures r.Some? ==> r.value < |captureObjects| && captureObjects[r.value] == sortObject.value
  {
    if sortObject.None? then None else Position(captureObjects, sortObject.value)
  }

  /**
   * `extract_sort_value`: the value in the sort column of a row, when the row is long enough
   * and the value is an integer.
   */
  function SortValue(entry: seq<Data>, column: Option<nat>): (r: Option<int>)
    ensures r.Some? <==> column.Some? && column.value < |entry| && IsIntegral(entry[column.value])
  {
    if column.Some? && column.value < |entry| && IsIntegral(entry[column.value]) then
      Some(IntegralValue(entry[column.value]))
    else None
  }

  /**
   * How bad a value is for a mode: Largest keeps large values, so the smallest is worst;
   * Smallest the opposite; NearestToZero drops the farthest from zero, FarthestFromZero the
   * nearest.
   */
  function Badness(m: SortMethod, v: int): int {
    var magnitude := if v < 0 then -v else v;
    match m
    case Largest => -v
    case Smallest => v
    case NearestToZero => magnitude
    case FarthestFromZero => -magnitude
    case _ => 0
  }

  /**
   * `max_by` keeps the last of equally worst rows, `min_by` the first: Smallest and
   * NearestToZero search with `max_by`, the other two with `min_by`.
   */
  predicate LastOnTie(m: SortMethod) {
    m.Smallest? || m.NearestToZero?
  }

  /** Row k replaces the worst so far (`best`, a row with a sort value) in the scan. */
  predicate Replaces(buffer: seq<seq<Data>>, column: Option<nat>, m: SortMethod, k: nat, best: nat)
    requires k < |buffer| && best < |buffer|
    requires SortValue(buffer[k], column).Some? && SortValue(buffer[best], column).Some?
  {
    var b := Badness(m, SortValue(buffer[k], column).value);
    var c := Badness(m, SortValue(buffer[best], column).value);
    b > c || (LastOnTie(m) && b == c)
  }

  /** One step of the scan: row i becomes the worst so far when it has a sort value and replaces `best`. */
  function ScanStep(buffer: seq<seq<Data>>, column: Option<nat>, m: SortMethod, i: nat, best: Option<nat>): (next: Option<nat>)
    requires i < |buffer|
    requires best.Some? ==> best.value < i && SortValue(buffer[best.value], column).Some?
    ensures next.Some? ==> next.value <= i && SortValue(buffer[next.value], column).Some?
  {
    if SortValue(buffer[i], column).None? then best
    else if best.None? || Replaces(buffer, column, m, i, best.value) then Some(i)
    else best
  }

  /** The scan over rows i.. with the worst of rows ..i so far. */
  function WorstFrom(buffer: seq<seq<Data>>, column: Option<nat>, m: SortMethod, i: nat, best: Option<nat>): Option<nat>
    requires i <= |buffer|
    requires best.Some? ==> best.value < i && SortValue(buffer[best.value], column).Some?
    decreases |buffer| - i
  {
    if i == |buffer| then best else WorstFrom(buffer, column, m, i + 1, ScanStep(buffer, column, m, i, best))
  }

  /** `find_worst_entry_index`. */
  function WorstIndex(buffer: seq<seq<Data>>, column: Option<nat>, m: SortMethod): Option<nat> {
    if !IsSorted(m) then None else WorstFrom(buffer, column, m, 0, None)
  }

  /** Row k has a sort value and is the worst among the rows below hi, by the tie rule of the mode. */
  predicate WorstBelow(buffer: seq<seq<Data>>, column: Option<nat>, m: SortMethod, hi: nat, k: nat)
    requires hi <= |buffer|
  {
    && k < hi && SortValue(buffer[k], column).Some?
    && var vk := Badness(m, SortValue(buffer[k], column).value);
    && (forall j | 0 <= j < hi && SortValue(buffer[j], column).Some? :: Badness(m, SortValue(buffer[j], column).value) <= vk)
    && (!LastOnTie(m) ==> forall j | 0 <= j < k && SortValue(buffer[j], column).Some? :: Badness(m, SortValue(buffer[j], column).value) < vk)
    && (LastOnTie(m) ==> forall j | k < j < hi && SortValue(buffer[j], column).Some? :: Badness(m, SortValue(buffer[j], column).value) < vk)
  }

  /** No row below hi has a sort value. */
  predicate NoneBelow(buffer: seq<seq<Data>>, column: Option<nat>, hi: nat)
    requires hi <= |buffer|
  {
    forall j | 0 <= j < hi :: SortValue(buffer[j], column).None?
  }

  /** One step of the scan keeps "best is the worst row so far". */
  lemma {:induction false} ScanStepKeepsWorst(buffer: seq<seq<Data>>, column: Option<nat>, m: SortMethod, i: nat, best: Option<nat>)
    requires i < |buffer|
    requires best.Some? ==> WorstBelow(buffer, column, m, i, best.value)
    requires best.None? ==> NoneBelow(buffer, column, i)
    ensures ScanStep(buffer, column, m, i, best).Some? ==> WorstBelow(buffer, column, m, i + 1, ScanStep(buffer, column, m, i, best).value)
    ensures ScanStep(buffer, column, m, i, best).None? ==> NoneBelow(buffer, column, i + 1)
  {
  }

  lemma {:induction false} WorstFromCorrect(buffer: seq<seq<Data>>, column: Option<nat>, m: SortMethod, i: nat, best: Option<nat>)
    requires i <= |buffer|
    requires best.Some? ==> WorstBelow(buffer, column, m, i, best.value)
    requires best.None? ==> NoneBelow(buffer, column, i)
    ensures WorstFrom(buffer, column, m, i, best).Some? ==> WorstBelow(buffer, column, m, |buffer|, WorstFrom(buffer, column, m, i, best).value)
    ensures WorstFrom(buffer, column, m, i, best).None? ==> NoneBelow(buffer, column, |buffer|)
    decreases |buffer| - i
  {
    if i < |buffer| {
      ScanStepKeepsWorst(buffer, column, m, i, best);
      WorstFromCorrect(buffer, column, m, i + 1, ScanStep(buffer, column, m, i, best));
    }
  }

  /**
   * In a sorted mode the chosen row is the worst one with a sort value (the first of equals
   * for `min_by`, the last for `max_by`), and there is none exactly when no row has one.
   */
  lemma {:induction false} WorstIndexIsWorst(buffer: seq<seq<Data>>, column: Option<nat>, m: SortMethod)
    requires IsSorted(m)
    ensures WorstIndex(buffer, column, m).Some? ==> WorstBelow(buffer, column, m, |buffer|, WorstIndex(buffer, column, m).value)
    ensures WorstIndex(buffer, column, m).None? <==> NoneBelow(buffer, column, |buffer|)
  {
    WorstFromCorrect(buffer, column, m, 0, None);
  }

  // ---------------------------------------------------------------------------
  // The buffer after add_entry (lines 778-842)
  // ---------------------------------------------------------------------------

  function Min(a: int, b: int): int { if a <= b then a else b }

  function Max(a: int, b: int): int { if a <= b then b else a }

  /** FIFO: the newest `pe` rows of the buffer with the entry at the back. */
  function FifoAdded(buffer: seq<seq<Data>>, entry: seq<Data>, pe: nat): seq<seq<Data>> {
    var full := buffer + [entry];
    if |full| <= pe then full else full[|full| - pe..]
  }

  /** LIFO: the first `pe` rows of the buffer with the entry at the front. */
  function LifoAdded(buffer: seq<seq<Data>>, entry: seq<Data>, pe: nat): seq<seq<Data>> {
    var full := [entry] + buffer;
    if |full| <= pe then full else full[..pe]
  }

  /** `VecDeque::remove`: the row at i taken out; an index past the end removes nothing. */
  function RemoveAt(s: seq<seq<Data>>, i: nat): (r: seq<seq<Data>>)
    ensures i < |s| ==> |r| == |s| - 1
  {
    if i < |s| then s[..i] + s[i + 1..] else s
  }

  /**
   * `add_entry_sorted`: the entry appended and, when that exceeds the capacity, the worst
   * row of the extended buffer removed, or the front row when no row has a sort value.
   */
  function SortedAdded(buffer: seq<seq<Data>>, entry: seq<Data>, pe: nat, column: Option<nat>, m: SortMethod): seq<seq<Data>> {
    var full := buffer + [entry];
    if |full| <= pe then full
    else
      match WorstIndex(full, column, m)
      case Some(w) => RemoveAt(full, w)
      case None => full[1..]
  }

  /** The buffer after `add_entry` with the given sort method, capacity and sort column. */
  function Added(buffer: seq<seq<Data>>, entry: seq<Data>, m: SortMethod, pe: nat, column: Option<nat>): seq<seq<Data>> {
    match m
    case Fifo => FifoAdded(buffer, entry, pe)
    case Lifo => LifoAdded(buffer, entry, pe)
    case _ => SortedAdded(buffer, entry, pe, column, m)
  }

  /**
   * FIFO keeps the order: the result is the last min(n + 1, pe) rows of the buffer followed
   * by the entry, which is therefore the last row whenever pe >= 1; pe = 0 keeps nothing.
   */
  lemma {:induction false} FifoAddedKeepsNewest(buffer: seq<seq<Data>>, entry: seq<Data>, pe: nat)
    ensures |FifoAdded(buffer, entry, pe)| == Min(|buffer| + 1, pe)
    ensures FifoAdded(buffer, entry, pe) == (buffer + [entry])[|buffer| + 1 - Min(|buffer| + 1, pe)..]
    ensures pe >= 1 ==> FifoAdded(buffer, entry, pe)[|FifoAdded(buffer, entry, pe)| - 1] == entry
    ensures pe == 0 ==> FifoAdded(buffer, entry, pe) == []
  {
    var full := buffer + [entry];
    var r := FifoAdded(buffer, entry, pe);
    if pe >= 1 {
      assert r[|r| - 1] == full[|full| - 1];
    }
  }

  /**
   * LIFO: the entry goes in front of the buffer, and the result is the first
   * min(n + 1, pe) rows of that; pe = 0 keeps nothing.
   */
  lemma {:induction false} LifoAddedKeepsFront(buffer: seq<seq<Data>>, entry: seq<Data>, pe: nat)
    ensures |LifoAdded(buffer, entry, pe)| == Min(|buffer| + 1, pe)
    ensures LifoAdded(buffer, entry, pe) == ([entry] + buffer)[..Min(|buffer| + 1, pe)]
    ensures pe >= 1 ==> LifoAdded(buffer, entry, pe)[0] == entry
    ensures pe == 0 ==> LifoAdded(buffer, entry, pe) == []
  {
  }

  /**
   * The sorted modes remove at most one row: under capacity the entry is simply appended;
   * otherwise exactly one row of the extended buffer goes, the worst one by the mode, or the
   * oldest when no row has a sort value.
   */
  lemma {:induction false} SortedAddedRemovesOne(buffer: seq<seq<Data>>, entry: seq<Data>, pe: nat, column: Option<nat>, m: SortMethod)
    requires IsSorted(m)
    ensures var full := buffer + [entry]; var r := SortedAdded(buffer, entry, pe, column, m);
            && (|full| <= pe ==> r == full)
            && (|full| > pe ==> |r| == |buffer|)
            && (|full| > pe && WorstIndex(full, column, m).Some? ==>
                WorstBelow(full, column, m, |full|, WorstIndex(full, column, m).value) && r == RemoveAt(full, WorstIndex(full, column, m).value))
            && (|full| > pe && NoneBelow(full, column, |full|) ==> r == full[1..])
  {
    var full := buffer + [entry];
    WorstIndexIsWorst(full, column, m);
  }

  /** Without a sort column (no sort object, or one that is not a capture object) every sorted mode falls back to FIFO removal. */
  lemma {:induction false} NoSortColumnDropsOldest(buffer: seq<seq<Data>>, entry: seq<Data>, pe: nat, m: SortMethod)
    requires IsSorted(m)
    requires |buffer| + 1 > pe
    ensures SortedAdded(buffer, entry, pe, None, m) == (buffer + [entry])[1..]
  {
    var full := buffer + [entry];
    WorstIndexIsWorst(full, None, m);
  }

  /** No add makes the buffer longer than the larger of its old length and the capacity; FIFO and LIFO never exceed the capacity. */
  lemma {:induction false} AddedBounded(buffer: seq<seq<Data>>, entry: seq<Data>, m: SortMethod, pe: nat, column: Option<nat>)
    ensures |Added(buffer, entry, m, pe, column)| <= Max(|buffer|, pe)
    ensures (m.Fifo? || m.Lifo?) ==> |Added(buffer, entry, m, pe, column)| <= pe
  {
    match m
    case Fifo => FifoAddedKeepsNewest(buffer, entry, pe);
    case Lifo => LifoAddedKeepsFront(buffer, entry, pe);
    case _ => SortedAddedRemovesOne(buffer, entry, pe, column, m);
  }

  /** With a capacity of zero an empty buffer stays empty, whatever the mode. */
  lemma {:induction false} ZeroCapacityStaysEmpty(entry: seq<Data>, m: SortMethod, column: Option<nat>)
    ensures Added([], entry, m, 0, column) == []
  {
    AddedBounded([], entry, m, 0, column);
  }

  /** The row `capture` records: one DoubleLongUnsigned(0) per capture object. */
  function PlaceholderEntry(n: nat): (e: seq<Data>)
    ensures |e| == n && forall i | 0 <= i < n :: e[i] == DoubleLongUnsigned(0)
  {
    seq(n, _ => DoubleLongUnsigned(0))
  }

  /** The buffer as attribute 2 carries it: each row a Structure. */
  function Rows(buffer: seq<seq<Data>>): (rows: seq<Data>)
    ensures |rows| == |buffer| && forall i | 0 <= i < |buffer| :: rows[i] == Structure(buffer[i])
  {
    seq(|buffer|, i requires 0 <= i < |buffer| => Structure(buffer[i]))
  }

  /**
   * What `get_attribute` returns. Attribute 2 is an Array, or a CompactArray, of rows: those
   * two Data variants belong to src/data.rs beyond the codec modelled in AxdrData, so they
   * are kept apart here.
   */
  datatype AttributeValue = Value(data: Data) | Array(rows: seq<Data>) | CompactArray(rows: seq<Data>)

  /** The outcome `set_attribute` reports; it does not depend on the state. */
  function WriteOutcome(id: i8, v: Data): (r: Result<(), G.DataAccessResult>)
    ensures r.Ok? <==>
      || (id == 3 && v.Structure? && CaptureObjectsFrom(v.elements).Some?)
      || ((id == 4 || id == 8) && v.DoubleLongUnsigned?)
      || (id == 5 && v.Enum? && 1 <= v.enumValue <= 6)
      || (id == 6 && (v.Null? || CaptureObjectFrom(v).Some?))
    ensures r == Err(G.ReadWriteDenied) <==> id == 1 || id == 2 || id == 7
    ensures r == Err(G.ObjectUndefined) <==> !(1 <= id <= 8)
    ensures r.Err? ==> r.error in {G.ReadWriteDenied, G.ObjectUndefined, G.TypeUnmatched}
  {
    match id
    case 1 => Err(G.ReadWriteDenied)
    case 2 => Err(G.ReadWriteDenied)
    case 7 => Err(G.ReadWriteDenied)
    case 3 => if v.Structure? && CaptureObjectsFrom(v.elements).Some? then Ok(()) else Err(G.TypeUnmatched)
    case 4 => if v.DoubleLongUnsigned? then Ok(()) else Err(G.TypeUnmatched)
    case 5 =>
      if !v.Enum? then Err(G.TypeUnmatched)
      else if SortMethodFromByte(v.enumValue).Ok? then Ok(()) else Err(G.TypeUnmatched)
    case 6 => if v.Null? || CaptureObjectFrom(v).Some? then Ok(()) else Err(G.TypeUnmatched)
    case 8 => if v.DoubleLongUnsigned? then Ok(()) else Err(G.TypeUnmatched)
    case _ => Err(G.ObjectUndefined)
  }

  // ---------------------------------------------------------------------------
  // The Profile Generic object
  // ---------------------------------------------------------------------------

  class ProfileGeneric {
    const classId: u16 := 7
    const version: byte := 0
    const logicalName: Obis.ObisCode
    var buffer: seq<seq<Data>>
    var captureObjects: seq<CaptureObjectDefinition>
    var capturePeriod: u32
    var sortMethod: SortMethod
    var sortObject: Option<CaptureObjectDefinition>
    var entriesInUse: u32
    var profileEntries: u32
    /** Not an attribute: when the last periodic capture ran. */
    var executedTime: u32
    /** Not an attribute: whether a non-empty buffer is sent as a CompactArray. */
    var useCompactArrayEncoding: bool

    /**
     * `entries_in_use` is the length of the buffer. The constructors establish it and every
     * method keeps it; attribute 7 relies on it.
     */
    predicate Valid()
      reads this
    {
      entriesInUse == |buffer|
    }

    /** `ProfileGeneric::new`: an empty FIFO profile with no columns. */
    constructor(logicalName: Obis.ObisCode, profileEntries: u32)
      ensures this.logicalName == logicalName && buffer == [] && captureObjects == []
      ensures capturePeriod == 0 && sortMethod == Fifo && sortObject == None
      ensures entriesInUse == 0 && this.profileEntries == profileEntries && executedTime == 0
      ensures !useCompactArrayEncoding
      ensures Valid()
    {
      this.logicalName := logicalName;
      buffer := [];
      captureObjects := [];
      capturePeriod := 0;
      sortMethod := Fifo;
      sortObject := None;
      entriesInUse := 0;
      this.profileEntries := profileEntries;
      executedTime := 0;
      useCompactArrayEncoding := false;
    }

    /** `ProfileGeneric::with_fifo`. */
    constructor WithFifo(logicalName: Obis.ObisCode, captureObjects: seq<CaptureObjectDefinition>, capturePeriod: u32, profileEntries: u32)
      ensures this.logicalName == logicalName && buffer == [] && this.captureObjects == captureObjects
      ensures this.capturePeriod == capturePeriod && sortMethod == Fifo && sortObject == None
      ensures entriesInUse == 0 && this.profileEntries == profileEntries && executedTime == 0
      ensures !useCompactArrayEncoding
      ensures Valid()
    {
      this.logicalName := logicalName;
      buffer := [];
      this.captureObjects := captureObjects;
      this.capturePeriod := capturePeriod;
      sortMethod := Fifo;
      sortObject := None;
      entriesInUse := 0;
      this.profileEntries := profileEntries;
      executedTime := 0;
      useCompactArrayEncoding := false;
    }

    /** `ProfileGeneric::with_lifo`. */
    constructor WithLifo(logicalName: Obis.ObisCode, captureObjects: seq<CaptureObjectDefinition>, capturePeriod: u32, profileEntries: u32)
      ensures this.logicalName == logicalName && buffer == [] && this.captureObjects == captureObjects
      ensures this.capturePeriod == capturePeriod && sortMethod == Lifo && sortObject == None
      ensures entriesInUse == 0 && this.profileEntries == profileEntries && executedTime == 0
      ensures !useCompactArrayEncoding
      ensures Valid()
    {
      this.logicalName := logicalName;
      buffer := [];
      this.captureObjects := captureObjects;
      this.capturePeriod := capturePeriod;
      sortMethod := Lifo;
      sortObject := None;
      entriesInUse := 0;
      this.profileEntries := profileEntries;
      executedTime := 0;
      useCompactArrayEncoding := false;
    }

    /** The configuration: everything but the buffer, its count and the capture time. */
    twostate predicate ConfigurationKept()
      reads this
    {
      && captureObjects == old(captureObjects) && capturePeriod == old(capturePeriod)
      && sortMethod == old(sortMethod) && sortObject == old(sortObject)
      && profileEntries == old(profileEntries) && useCompactArrayEncoding == old(useCompactArrayEncoding)
    }

    /** The FIFO branch of `add_entry`: push at the back, pop from the front while over capacity. */
    method AddFifo(entry: seq<Data>)
      modifies this
      ensures buffer == FifoAdded(old(buffer), entry, profileEntries)
      ensures ConfigurationKept() && entriesInUse == old(entriesInUse) && executedTime == old(executedTime)
    {
      ghost var full := buffer + [entry];
      buffer := buffer + [entry];
      while |buffer| > profileEntries
        invariant |buffer| <= |full| && buffer == full[|full| - |buffer|..]
        invariant |buffer| == |full| || |buffer| >= profileEntries
        invariant ConfigurationKept() && entriesInUse == old(entriesInUse) && executedTime == old(executedTime)
        decreases |buffer|
      {
        buffer := buffer[1..];
      }
    }

    /** The LIFO branch of `add_entry`: push at the front, pop from the back while over capacity. */
    method AddLifo(entry: seq<Data>)
      modifies this
      ensures buffer == LifoAdded(old(buffer), entry, profileEntries)
      ensures ConfigurationKept() && entriesInUse == old(entriesInUse) && executedTime == old(executedTime)
    {
      ghost var full := [entry] + buffer;
      buffer := [entry] + buffer;
      while |buffer| > profileEntries
        invariant |buffer| <= |full| && buffer == full[..|buffer|]
        invariant |buffer| == |full| || |buffer| >= profileEntries
        invariant ConfigurationKept() && entriesInUse == old(entriesInUse) && executedTime == old(executedTime)
        decreases |buffer|
      {
        buffer := buffer[..|buffer| - 1];
      }
    }

    /** `add_entry_sorted`. */
    method AddSorted(entry: seq<Data>)
      modifies this
      ensures buffer == SortedAdded(old(buffer), entry, profileEntries, SortColumn(captureObjects, sortObject), sortMethod)
      ensures ConfigurationKept() && entriesInUse == old(entriesInUse) && executedTime == old(executedTime)
    {
      buffer := buffer + [entry];
      if |buffer| <= profileEntries {
        return;
      }
      var worst := WorstIndex(buffer, SortColumn(captureObjects, sortObject), sortMethod);
      if worst.Some? {
        buffer := RemoveAt(buffer, worst.value);
      } else {
        buffer := buffer[1..];
      }
    }

    /** `add_entry`: by the sort method, then `entries_in_use = buffer.len() as u32`. */
    method AddEntry(entry: seq<Data>)
      modifies this
      ensures buffer == Added(old(buffer), entry, sortMethod, profileEntries, SortColumn(captureObjects, sortObject))
      ensures entriesInUse == |buffer| % 0x1_0000_0000
      ensures ConfigurationKept() && executedTime == old(executedTime)
      ensures old(Valid()) ==> Valid()
    {
      match sortMethod {
        case Fifo => AddFifo(entry);
        case Lifo => AddLifo(entry);
        case _ => AddSorted(entry);
      }
      entriesInUse := |buffer| % 0x1_0000_0000;
      AddedBounded(old(buffer), entry, sortMethod, profileEntries, SortColumn(captureObjects, sortObject));
    }

    /** Method 1, `reset`: the buffer emptied; the parameter is ignored. */
    method Reset(parameters: Option<Data>) returns (r: Result<Option<Data>, A.ActionResult>)
      modifies this
      ensures r == Ok(Some(Integer(0)))
      ensures buffer == [] && entriesInUse == 0 && executedTime == 0
      ensures ConfigurationKept() && Valid()
    {
      buffer := [];
      entriesInUse := 0;
      executedTime := 0;
      r := Ok(Some(Integer(0)));
    }

    /** Method 2, `capture`: a placeholder row added; the parameter is ignored. */
    method Capture(parameters: Option<Data>) returns (r: Result<Option<Data>, A.ActionResult>)
      modifies this
      ensures r == Ok(Some(Integer(0)))
      ensures buffer == Added(old(buffer), PlaceholderEntry(|captureObjects|), sortMethod, profileEntries, SortColumn(captureObjects, sortObject))
      ensures entriesInUse == |buffer| % 0x1_0000_0000
      ensures ConfigurationKept() && executedTime == old(executedTime)
      ensures old(Valid()) ==> Valid()
    {
      var entry := PlaceholderEntry(|captureObjects|);
      AddEntry(entry);
      r := Ok(Some(Integer(0)));
    }

    /** `invoke_method`: 1 is reset, 2 is capture. */
    method InvokeMethod(id: i8, parameters: Option<Data>) returns (r: Result<Option<Data>, A.ActionResult>)
      modifies this
      ensures !(id == 1 || id == 2) ==> r == Err(A.ObjectUndefined) && buffer == old(buffer) && entriesInUse == old(entriesInUse)
      ensures id == 1 || id == 2 ==> r == Ok(Some(Integer(0)))
      ensures id == 1 ==> buffer == [] && entriesInUse == 0 && executedTime == 0
      ensures id == 2 ==> buffer == Added(old(buffer), PlaceholderEntry(|captureObjects|), sortMethod, profileEntries, SortColumn(captureObjects, sortObject))
      ensures id != 1 ==> executedTime == old(executedTime)
      ensures ConfigurationKept()
      ensures old(Valid()) ==> Valid()
    {
      match id
      case 1 => r := Reset(parameters);
      case 2 => r := Capture(parameters);
      case _ => r := Err(A.ObjectUndefined);
    }

    /** `get_attribute`: the rows, the column definitions and the settings. */
    function GetAttribute(id: i8): (r: Result<AttributeValue, G.DataAccessResult>)
      reads this
      ensures r.Ok? <==> 1 <= id <= 8
      ensures r.Err? ==> r.error == G.ObjectUndefined
      ensures id == 1 ==> r.value.Value? && r.value.data.OctetString? && Obis.Parse(r.value.data.bytes) == Some((logicalName, []))
      ensures id == 2 ==> !r.value.Value? && r.value.rows == Rows(buffer)
      ensures id == 2 ==> (r.value.CompactArray? <==> useCompactArrayEncoding && |buffer| > 0)
      ensures id == 3 ==> r.value.Value? && r.value.data.Structure? && CaptureObjectsFrom(r.value.data.elements) == Some(captureObjects)
      ensures id == 4 ==> r.value == Value(DoubleLongUnsigned(capturePeriod))
      ensures id == 5 ==> r.value.Value? && r.value.data.Enum? && SortMethodFromByte(r.value.data.enumValue) == Ok(sortMethod)
      ensures id == 6 ==> r.value.Value? && (sortObject.None? <==> r.value.data.Null?)
      ensures id == 6 && sortObject.Some? ==> CaptureObjectFrom(r.value.data) == sortObject
      ensures id == 7 ==> r.value == Value(DoubleLongUnsigned(entriesInUse))
      ensures id == 7 && Valid() ==> r.value == Value(DoubleLongUnsigned(|buffer|))
      ensures id == 8 ==> r.value == Value(DoubleLongUnsigned(profileEntries))
    {
      match id
      case 1 => Ok(Value(LogicalNameValue(logicalName)))
      case 2 =>
        var rows := Rows(buffer);
        if useCompactArrayEncoding && |rows| > 0 then Ok(CompactArray(rows)) else Ok(Array(rows))
      case 3 =>
        CaptureObjectsRoundTrip(captureObjects);
        Ok(Value(Structure(CaptureObjectsValue(captureObjects))))
      case 4 => Ok(Value(DoubleLongUnsigned(capturePeriod)))
      case 5 =>
        SortMethodRoundTrip(sortMethod);
        Ok(Value(Enum(SortMethodToByte(sortMethod))))
      case 6 =>
        if sortObject.Some? then
          CaptureObjectRoundTrip(sortObject.value);
          Ok(Value(CaptureObjectValue(sortObject.value)))
        else Ok(Value(Null))
      case 7 => Ok(Value(DoubleLongUnsigned(entriesInUse)))
      case 8 => Ok(Value(DoubleLongUnsigned(profileEntries)))
      case _ => Err(G.ObjectUndefined)
    }

    /** The effect of `set_attribute`: the addressed setting takes the decoded value when accepted. */
    twostate predicate Written(id: i8, v: Data)
      reads this
    {
      var ok := WriteOutcome(id, v).Ok?;
      && buffer == old(buffer) && entriesInUse == old(entriesInUse) && executedTime == old(executedTime)
      && useCompactArrayEncoding == old(useCompactArrayEncoding)
      && captureObjects == (if id == 3 && ok then CaptureObjectsFrom(v.elements).value else old(captureObjects))
      && capturePeriod == (if id == 4 && ok then v.u32 else old(capturePeriod))
      && sortMethod == (if id == 5 && ok then SortMethodFromByte(v.enumValue).value else old(sortMethod))
      && sortObject == (if id == 6 && ok then CaptureObjectFrom(v) else old(sortObject))
      && profileEntries == (if id == 8 && ok then v.u32 else old(profileEntries))
    }

    /**
     * `set_attribute`: the buffer and its count are read-only; a refused value changes
     * nothing, and an accepted one is what the getter returns afterwards.
     */
    method SetAttribute(id: i8, v: Data) returns (r: Result<(), G.DataAccessResult>)
      modifies this
      ensures r == WriteOutcome(id, v)
      ensures Written(id, v)
      ensures r.Ok? ==> GetAttribute(id) == Ok(Value(v))
      ensures old(Valid()) ==> Valid()
    {
      match id
      case 1 => r := Err(G.ReadWriteDenied);
      case 2 => r := Err(G.ReadWriteDenied);
      case 7 => r := Err(G.ReadWriteDenied);
      case 3 =>
        if v.Structure? {
          var parsed := ParseCaptureObjects(v.elements);
          if parsed.Some? {
            CaptureObjectsSound(v.elements);
            captureObjects := parsed.value;
            r := Ok(());
          } else {
            r := Err(G.TypeUnmatched);
          }
        } else {
          r := Err(G.TypeUnmatched);
        }
      case 4 =>
        if v.DoubleLongUnsigned? {
          capturePeriod := v.u32;
          r := Ok(());
        } else {
          r := Err(G.TypeUnmatched);
        }
      case 5 =>
        if v.Enum? {
          var m := SortMethodFromByte(v.enumValue);
          if m.Err? {
            return Err(m.error);
          }
          sortMethod := m.value;
          r := Ok(());
        } else {
          r := Err(G.TypeUnmatched);
        }
      case 6 =>
        if v.Null? {
          sortObject := None;
          r := Ok(());
        } else {
          var c := CaptureObjectFrom(v);
          if c.None? {
            return Err(G.TypeUnmatched);
          }
          sortObject := c;
          r := Ok(());
        }
      case 8 =>
        if v.DoubleLongUnsigned? {
          profileEntries := v.u32;
          r := Ok(());
        } else {
          r := Err(G.TypeUnmatched);
        }
      case _ => r := Err(G.ObjectUndefined);
    }
  }
}
