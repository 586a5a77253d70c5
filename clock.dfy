/**
 * src/cosem/clock.rs: interface class 8, Clock. The device time, its time zone and status,
 * the daylight-saving settings, the clock base, and methods that round or shift the time
 * of day. The date, offset and status of the time are never touched by those methods.
 */
module ClockClass {
  import opened Bytes
  import opened AxdrData
  import Obis
  import G = GetService
  import A = ActionService
  import opened CosemObject

  // ---------------------------------------------------------------------------
  // ClockBase (lines 131-180)
  // ---------------------------------------------------------------------------

  /** The time reference the clock is synchronised to. */
  datatype ClockBase = NotDefined | Crystal | Mains50Hz | Mains60Hz | Gps | Radio

  /** `ClockBase::to_u8`: the declared discriminant. */
  function ClockBaseToByte(c: ClockBase): (b: byte)
    ensures b <= 5
  {
    match c
    case NotDefined => 0
    case Crystal => 1
    case Mains50Hz => 2
    case Mains60Hz => 3
    case Gps => 4
    case Radio => 5
  }

  /** `ClockBase::from_u8`: defined for 0-5 and the inverse of `to_u8` there. */
  function ClockBaseFromByte(b: byte): (r: Option<ClockBase>)
    ensures r.Some? <==> b <= 5
    ensures r.Some? ==> ClockBaseToByte(r.value) == b
  {
    match b
    case 0 => Some(NotDefined)
    case 1 => Some(Crystal)
    case 2 => Some(Mains50Hz)
    case 3 => Some(Mains60Hz)
    case 4 => Some(Gps)
    case 5 => Some(Radio)
    case _ => None
  }

  lemma ClockBaseRoundTrip(c: ClockBase)
    ensures ClockBaseFromByte(ClockBaseToByte(c)) == Some(c)
  {
  }

  // ---------------------------------------------------------------------------
  // Time-of-day arithmetic of the methods (lines 226-246, 281-293, 366-392)
  // ---------------------------------------------------------------------------

  /** `Option::unwrap_or(0)` on a time field. */
  function OrZero(o: Option<byte>): byte {
    if o.Some? then o.value else 0
  }

  /**
   * `hour + 1` and `minute + 1` on a u8. A present 0xFF field (which `Clock::new` leaves)
   * overflows: a debug build panics there, a release build wraps to 0, as here.
   */
  function Inc(x: byte): (y: byte)
    ensures x < 255 ==> y == x + 1
    ensures x == 255 ==> y == 0
  {
    (x + 1) % 256
  }

  /** The rounding `adjust_to_quarter` applies to an hour and a minute. */
  function QuarterOf(h: byte, m: byte): (r: (byte, byte))
    ensures r.1 == 0 || r.1 == 15 || r.1 == 30 || r.1 == 45
    ensures m < 53 ==> r.0 == h
  {
    if m < 8 then (h, 0)
    else if m < 23 then (h, 15)
    else if m < 38 then (h, 30)
    else if m < 53 then (h, 45)
    else (Inc(h) % 24, 0)
  }

  /** The nearest quarter of an hour, in minutes since midnight, before it wraps at 24:00. */
  function NearestQuarter(t: int): int {
    (t + 7) / 15 * 15
  }

  /**
   * For a valid time the rounding is to the nearest quarter (a draw, 7.5 minutes, cannot
   * happen on whole minutes), and 23:53 and later wrap to 00:00.
   */
  lemma {:induction false} QuarterIsNearest(h: byte, m: byte)
    requires h <= 23 && m <= 59
    ensures QuarterOf(h, m).0 < 24
    ensures QuarterOf(h, m).0 * 60 + QuarterOf(h, m).1 == NearestQuarter(h * 60 + m) % 1440
    ensures -7 <= NearestQuarter(h * 60 + m) - (h * 60 + m) <= 7
    ensures NearestQuarter(h * 60 + m) % 15 == 0
  {
    var t := h * 60 + m;
    assert (t + 7) / 15 == h * 4 + (m + 7) / 15 by {
      assert t + 7 == (h * 4) * 15 + (m + 7);
    }
    if m >= 53 {
      assert (m + 7) / 15 == 4;
      if h == 23 {
        assert NearestQuarter(t) == 1440;
      } else {
        assert NearestQuarter(t) == (h + 1) * 60;
      }
    }
  }

  /** The rounding `adjust_to_minute` applies: up when more than 30 seconds have passed. */
  function MinuteOf(h: byte, m: byte, s: byte): (r: (byte, byte))
    ensures s <= 30 ==> r == (h, m)
  {
    if s > 30 then
      if m == 59 then (Inc(h) % 24, 0) else (h, Inc(m))
    else (h, m)
  }

  /** For a valid time, the minute is rounded to the nearest one, wrapping at 24:00. */
  lemma {:induction false} MinuteIsNearest(h: byte, m: byte, s: byte)
    requires h <= 23 && m <= 59
    ensures MinuteOf(h, m, s).0 < 24 && MinuteOf(h, m, s).1 < 60
    ensures MinuteOf(h, m, s).0 * 60 + MinuteOf(h, m, s).1 == (h * 60 + m + (if s > 30 then 1 else 0)) % 1440
  {
  }

  /** Rust's `%` on `i32`: the remainder takes the sign of the dividend. */
  function TruncRem(a: int, b: int): (r: int)
    requires b > 0
    ensures -b < r < b
    ensures a >= 0 ==> r == a % b
    ensures a < 0 ==> -r == (-a) % b
  {
    if a >= 0 then a % b else -((-a) % b)
  }

  /** The seconds of a day; the computation happens in i32, which no input overflows. */
  const Day := 86400

  /** `((total % 86400) + 86400) % 86400` is the Euclidean remainder. */
  lemma {:induction false} NormalizedIsModulo(total: int)
    ensures TruncRem(TruncRem(total, Day) + Day, Day) == total % Day
  {
    var r := TruncRem(total, Day);
    if total < 0 {
      var k := -total;
      var q := -(k / Day);
      assert k == (k / Day) * Day + k % Day;
      assert total == q * Day + r;
      if r == 0 {
        assert total % Day == 0 by { ModMultiple(q, 0); }
      } else {
        assert total == (q - 1) * Day + (r + Day);
        ModMultiple(q - 1, r + Day);
      }
    }
  }

  /** `(q * Day + r) % Day == r` for a remainder in range. */
  lemma ModMultiple(q: int, r: int)
    requires 0 <= r < Day
    ensures (q * Day + r) % Day == r
  {
  }

  /**
   * The hour, minute and second `shift_time` computes: the day's seconds plus the shift,
   * normalised into one day, split back into fields.
   */
  function ShiftedClock(h: byte, m: byte, s: byte, shift: i16): (r: (byte, byte, byte))
    ensures r.0 < 24 && r.1 < 60 && r.2 < 60
    ensures r.0 * 3600 + r.1 * 60 + r.2 == (h * 3600 + m * 60 + s + shift) % Day
  {
    var total := h * 3600 + m * 60 + s + shift;
    var n := TruncRem(TruncRem(total, Day) + Day, Day);
    NormalizedIsModulo(total);
    Split(n);
    ((n / 3600) % 24, (n % 3600) / 60, n % 60)
  }

  /** A second of the day is split into an hour, minute and second that add back up to it. */
  lemma Split(n: int)
    requires 0 <= n < Day
    ensures n / 3600 < 24 && (n / 3600) % 24 == n / 3600
    ensures (n / 3600) * 3600 + ((n % 3600) / 60) * 60 + n % 60 == n
  {
    var h := n / 3600;
    var rest := n % 3600;
    assert n == h * 3600 + rest;
    assert rest == (rest / 60) * 60 + rest % 60;
    assert n % 60 == rest % 60 by {
      assert n == (h * 60) * 60 + rest;
      ModSixty(h * 60, rest);
    }
  }

  lemma ModSixty(q: int, rest: int)
    requires 0 <= rest
    ensures (q * 60 + rest) % 60 == rest % 60
  {
  }

  /** Fields in range are determined by the seconds they add up to. */
  lemma {:induction false} FieldsUnique(h: int, m: int, s: int, h': int, m': int, s': int)
    requires 0 <= h && 0 <= m < 60 && 0 <= s < 60 && 0 <= h' && 0 <= m' < 60 && 0 <= s' < 60
    requires h * 3600 + m * 60 + s == h' * 3600 + m' * 60 + s'
    ensures h == h' && m == m' && s == s'
  {
  }

  /** A shift of zero leaves a valid time as it is. */
  lemma {:induction false} ShiftByZero(h: byte, m: byte, s: byte)
    requires h <= 23 && m <= 59 && s <= 59
    ensures ShiftedClock(h, m, s, 0) == (h, m, s)
  {
    var r := ShiftedClock(h, m, s, 0);
    ModMultiple(0, h * 3600 + m * 60 + s);
    FieldsUnique(r.0, r.1, r.2, h, m, s);
  }

  /** Shifting back by the opposite amount restores a valid time. */
  lemma {:induction false} ShiftThenBack(h: byte, m: byte, s: byte, shift: i16)
    requires h <= 23 && m <= 59 && s <= 59 && shift != -0x8000
    ensures var r := ShiftedClock(h, m, s, shift); ShiftedClock(r.0, r.1, r.2, -shift) == (h, m, s)
  {
    var t := h * 3600 + m * 60 + s;
    var r := ShiftedClock(h, m, s, shift);
    var back := ShiftedClock(r.0, r.1, r.2, -shift);
    var q := (t + shift) / Day;
    assert t + shift == q * Day + (t + shift) % Day;
    assert r.0 * 3600 + r.1 * 60 + r.2 - shift == (-q) * Day + t;
    ModMultiple(-q, t);
    FieldsUnique(back.0, back.1, back.2, h, m, s);
  }

  /** The time of day with every field present, the way `update_time_components` stores it. */
  function WithTime(dt: CosemDateTime, h: byte, m: byte, s: byte, c: byte): (r: CosemDateTime)
    ensures r.date == dt.date && r.offsetMinutes == dt.offsetMinutes && r.clockStatus == dt.clockStatus
    ensures r.time == CosemTime(Some(h), Some(m), Some(s), Some(c))
  {
    dt.(time := CosemTime(Some(h), Some(m), Some(s), Some(c)))
  }

  /** Method 1: rounded to a quarter of an hour, seconds and hundredths zero. */
  function Quartered(dt: CosemDateTime): CosemDateTime {
    var q := QuarterOf(OrZero(dt.time.hour), OrZero(dt.time.minute));
    WithTime(dt, q.0, q.1, 0, 0)
  }

  /** Method 3: rounded to a minute, seconds and hundredths zero. */
  function MinuteRounded(dt: CosemDateTime): CosemDateTime {
    var t := dt.time;
    var r := MinuteOf(OrZero(t.hour), OrZero(t.minute), OrZero(t.second));
    WithTime(dt, r.0, r.1, 0, 0)
  }

  /** Method 6: moved by `shift` seconds within the day; the hundredths are kept. */
  function Shifted(dt: CosemDateTime, shift: i16): CosemDateTime {
    var t := dt.time;
    var r := ShiftedClock(OrZero(t.hour), OrZero(t.minute), OrZero(t.second), shift);
    WithTime(dt, r.0, r.1, r.2, OrZero(t.hundredth))
  }

  /** Rounding to a quarter twice is rounding once. */
  lemma QuarteredIdempotent(dt: CosemDateTime)
    ensures Quartered(Quartered(dt)) == Quartered(dt)
  {
  }

  /** Rounding to a minute twice is rounding once. */
  lemma MinuteRoundedIdempotent(dt: CosemDateTime)
    ensures MinuteRounded(MinuteRounded(dt)) == MinuteRounded(dt)
  {
  }

  /** A time of day with every field present and in range. */
  predicate FullTime(t: CosemTime) {
    t.hour.Some? && t.minute.Some? && t.second.Some? && t.hundredth.Some? && ValidTime(t)
  }

  /** A shift and the opposite shift cancel on a fully given time; a zero shift changes nothing. */
  lemma {:induction false} ShiftedInverse(dt: CosemDateTime, shift: i16)
    requires FullTime(dt.time) && shift != -0x8000
    ensures Shifted(Shifted(dt, shift), -shift) == dt
    ensures Shifted(dt, 0) == dt
  {
    var t := dt.time;
    ShiftThenBack(t.hour.value, t.minute.value, t.second.value, shift);
    ShiftByZero(t.hour.value, t.minute.value, t.second.value);
  }

  // ---------------------------------------------------------------------------
  // Date-times carried as 12-octet strings (attributes 2, 5, 6 and methods 4, 5)
  // ---------------------------------------------------------------------------

  /** An OctetString of exactly 12 octets that `DateTime::parse` accepts. */
  function DateTimeFrom(v: Data): (r: Option<CosemDateTime>)
    ensures r.Some? <==> v.OctetString? && |v.bytes| == 12 && ParseDateTime(v.bytes).Some?
    ensures r.Some? ==> ValidDateTime(r.value) && OctetString(EncodeDateTime(r.value)) == v
  {
    if v.OctetString? && |v.bytes| == 12 then
      match ParseDateTime(v.bytes)
      case Some((dt, _)) =>
        ParseDateTimeSound(v.bytes);
        Some(dt)
      case None => None
    else None
  }

  /** What the getter sends the setter accepts back unchanged, when the date-time is valid. */
  lemma DateTimeFromEncoded(dt: CosemDateTime)
    ensures ValidDateTime(dt) ==> DateTimeFrom(OctetString(EncodeDateTime(dt))) == Some(dt)
  {
    if ValidDateTime(dt) {
      DateTimeRoundTrip(dt, []);
      assert EncodeDateTime(dt) + [] == EncodeDateTime(dt);
    }
  }

  /** The outcome `set_attribute` reports; it does not depend on the state. */
  function WriteOutcome(id: i8, v: Data): (r: Result<(), G.DataAccessResult>)
    ensures r.Ok? <==>
      || ((id == 2 || id == 5 || id == 6) && DateTimeFrom(v).Some?)
      || (id == 3 && v.Long? && -720 <= v.i16 <= 720)
      || ((id == 4 || id == 8) && v.Unsigned?)
      || (id == 7 && v.Integer?)
      || (id == 9 && v.Enum? && v.enumValue <= 5)
    ensures r == Err(G.ReadWriteDenied) <==> id == 1
    ensures r == Err(G.ObjectUndefined) <==> !(1 <= id <= 9)
    ensures r == Err(G.OtherReason) <==> (id == 3 && v.Long? && !(-720 <= v.i16 <= 720)) || (id == 9 && v.Enum? && v.enumValue > 5)
    ensures r.Err? ==> r.error in {G.ReadWriteDenied, G.ObjectUndefined, G.OtherReason, G.TypeUnmatched}
  {
    match id
    case 1 => Err(G.ReadWriteDenied)
    case 2 => if DateTimeFrom(v).Some? then Ok(()) else Err(G.TypeUnmatched)
    case 3 =>
      if !v.Long? then Err(G.TypeUnmatched)
      else if -720 <= v.i16 <= 720 then Ok(()) else Err(G.OtherReason)
    case 4 => if v.Unsigned? then Ok(()) else Err(G.TypeUnmatched)
    case 5 => if DateTimeFrom(v).Some? then Ok(()) else Err(G.TypeUnmatched)
    case 6 => if DateTimeFrom(v).Some? then Ok(()) else Err(G.TypeUnmatched)
    case 7 => if v.Integer? then Ok(()) else Err(G.TypeUnmatched)
    case 8 => if v.Unsigned? then Ok(()) else Err(G.TypeUnmatched)
    case 9 =>
      if !v.Enum? then Err(G.TypeUnmatched)
      else if ClockBaseFromByte(v.enumValue).Some? then Ok(()) else Err(G.OtherReason)
    case _ => Err(G.ObjectUndefined)
  }

  // ---------------------------------------------------------------------------
  // The Clock object
  // ---------------------------------------------------------------------------

  class Clock {
    const classId: u16 := 8
    const version: byte := 0
    const logicalName: Obis.ObisCode
    var time: CosemDateTime
    var timeZone: i16
    var status: byte
    var daylightSavingsBegin: CosemDateTime
    var daylightSavingsEnd: CosemDateTime
    var daylightSavingsDeviation: i8
    var daylightSavingsEnabled: byte
    var clockBase: ClockBase
    /** Not an attribute: the time method 5 stores for a later adjustment. */
    var presetTime: CosemDateTime

    /**
     * The time zone is within twelve hours of UTC, as the setter enforces. The constructor
     * establishes it and every method keeps it; attribute 3 relies on it.
     */
    predicate Valid()
      reads this
    {
      -720 <= timeZone <= 720
    }

    /** `Clock::new`: every date-time the wildcard, zero offsets and flags, base not defined. */
    constructor(logicalName: Obis.ObisCode)
      ensures this.logicalName == logicalName
      ensures time == WildcardDateTime && daylightSavingsBegin == WildcardDateTime
      ensures daylightSavingsEnd == WildcardDateTime && presetTime == WildcardDateTime
      ensures timeZone == 0 && status == 0 && daylightSavingsDeviation == 0 && daylightSavingsEnabled == 0
      ensures clockBase == NotDefined
      ensures Valid()
    {
      this.logicalName := logicalName;
      time := WildcardDateTime;
      timeZone := 0;
      status := 0;
      daylightSavingsBegin := WildcardDateTime;
      daylightSavingsEnd := WildcardDateTime;
      daylightSavingsDeviation := 0;
      daylightSavingsEnabled := 0;
      clockBase := NotDefined;
      presetTime := WildcardDateTime;
    }

    /** Every field except `time` is as it was. */
    twostate predicate AllButTimeKept()
      reads this
    {
      && timeZone == old(timeZone) && status == old(status)
      && daylightSavingsBegin == old(daylightSavingsBegin) && daylightSavingsEnd == old(daylightSavingsEnd)
      && daylightSavingsDeviation == old(daylightSavingsDeviation)
      && daylightSavingsEnabled == old(daylightSavingsEnabled)
      && clockBase == old(clockBase) && presetTime == old(presetTime)
    }

    /** `update_time_components`: the four time fields become present; nothing else changes. */
    method UpdateTimeComponents(h: byte, m: byte, s: byte, c: byte)
      modifies this
      ensures time == WithTime(old(time), h, m, s, c)
      ensures AllButTimeKept()
    {
      time := time.(time := CosemTime(Some(h), Some(m), Some(s), Some(c)));
    }

    /** Method 1, `adjust_to_quarter`. */
    method AdjustToQuarter() returns (r: Result<Option<Data>, A.ActionResult>)
      modifies this
      ensures r == Ok(Some(Integer(0)))
      ensures time == Quartered(old(time)) && AllButTimeKept()
    {
      var hour := OrZero(time.time.hour);
      var minute := OrZero(time.time.minute);
      var newHour: byte, newMinute: byte;
      if minute < 8 {
        newHour, newMinute := hour, 0;
      } else if minute < 23 {
        newHour, newMinute := hour, 15;
      } else if minute < 38 {
        newHour, newMinute := hour, 30;
      } else if minute < 53 {
        newHour, newMinute := hour, 45;
      } else {
        newHour, newMinute := Inc(hour) % 24, 0;
      }
      UpdateTimeComponents(newHour, newMinute, 0, 0);
      r := Ok(Some(Integer(0)));
    }

    /** Method 2, `adjust_to_measuring_period`: a 15-minute period, so the same as method 1. */
    method AdjustToMeasuringPeriod() returns (r: Result<Option<Data>, A.ActionResult>)
      modifies this
      ensures r == Ok(Some(Integer(0)))
      ensures time == Quartered(old(time)) && AllButTimeKept()
    {
      r := AdjustToQuarter();
    }

    /** Method 3, `adjust_to_minute`. */
    method AdjustToMinute() returns (r: Result<Option<Data>, A.ActionResult>)
      modifies this
      ensures r == Ok(Some(Integer(0)))
      ensures time == MinuteRounded(old(time)) && AllButTimeKept()
    {
      var hour := OrZero(time.time.hour);
      var minute := OrZero(time.time.minute);
      var second := OrZero(time.time.second);
      var newHour: byte, newMinute: byte;
      if second > 30 {
        if minute == 59 {
          newHour, newMinute := Inc(hour) % 24, 0;
        } else {
          newHour, newMinute := hour, Inc(minute);
        }
      } else {
        newHour, newMinute := hour, minute;
      }
      UpdateTimeComponents(newHour, newMinute, 0, 0);
      r := Ok(Some(Integer(0)));
    }

    /** Method 4, `adjust_to_preset_time`: the clock is set to the given time at once. */
    method AdjustToPresetTime(presetTime: CosemDateTime) returns (r: Result<Option<Data>, A.ActionResult>)
      modifies this
      ensures r == Ok(Some(Integer(0)))
      ensures time == presetTime && AllButTimeKept()
    {
      time := presetTime;
      r := Ok(Some(Integer(0)));
    }

    /** Method 5, `preset_adjusting_time`: the time is stored for later; the clock is not touched. */
    method PresetAdjustingTime(preset: CosemDateTime) returns (r: Result<Option<Data>, A.ActionResult>)
      modifies this
      ensures r == Ok(Some(Integer(0)))
      ensures presetTime == preset && time == old(time)
      ensures timeZone == old(timeZone) && status == old(status) && clockBase == old(clockBase)
      ensures daylightSavingsBegin == old(daylightSavingsBegin) && daylightSavingsEnd == old(daylightSavingsEnd)
      ensures daylightSavingsDeviation == old(daylightSavingsDeviation) && daylightSavingsEnabled == old(daylightSavingsEnabled)
    {
      presetTime := preset;
      r := Ok(Some(Integer(0)));
    }

    /** Method 6, `shift_time`. */
    method ShiftTime(shift: i16) returns (r: Result<Option<Data>, A.ActionResult>)
      modifies this
      ensures r == Ok(Some(Integer(0)))
      ensures time == Shifted(old(time), shift) && AllButTimeKept()
    {
      var hour := OrZero(time.time.hour);
      var minute := OrZero(time.time.minute);
      var second := OrZero(time.time.second);
      var hundredth := OrZero(time.time.hundredth);
      var currentSeconds := (hour as int) * 3600 + (minute as int) * 60 + (second as int);
      var newTotalSeconds := currentSeconds + (shift as int);
      var normalizedSeconds := TruncRem(TruncRem(newTotalSeconds, Day) + Day, Day);
      NormalizedIsModulo(newTotalSeconds);
      Split(normalizedSeconds);
      var newHour: byte := (normalizedSeconds / 3600) % 24;
      var newMinute: byte := (normalizedSeconds % 3600) / 60;
      var newSecond: byte := normalizedSeconds % 60;
      UpdateTimeComponents(newHour, newMinute, newSecond, hundredth);
      r := Ok(Some(Integer(0)));
    }

    /**
     * `get_attribute` (with the `encode` feature): date-times go out as the twelve octets
     * of `DateTime::encode`, which read back as the same date-time when it is valid.
     */
    function GetAttribute(id: i8): (r: Result<Data, G.DataAccessResult>)
      reads this
      ensures r.Ok? <==> 1 <= id <= 9
      ensures r.Err? ==> r.error == G.ObjectUndefined
      ensures id == 1 ==> r.value.OctetString? && Obis.Parse(r.value.bytes) == Some((logicalName, []))
      ensures id == 2 ==> r.value == OctetString(EncodeDateTime(time))
      ensures id == 2 && ValidDateTime(time) ==> DateTimeFrom(r.value) == Some(time)
      ensures id == 3 ==> r.value == Long(timeZone)
      ensures id == 3 && Valid() ==> -720 <= r.value.i16 <= 720
      ensures id == 4 ==> r.value == Unsigned(status)
      ensures id == 5 ==> r.value == OctetString(EncodeDateTime(daylightSavingsBegin))
      ensures id == 5 && ValidDateTime(daylightSavingsBegin) ==> DateTimeFrom(r.value) == Some(daylightSavingsBegin)
      ensures id == 6 ==> r.value == OctetString(EncodeDateTime(daylightSavingsEnd))
      ensures id == 6 && ValidDateTime(daylightSavingsEnd) ==> DateTimeFrom(r.value) == Some(daylightSavingsEnd)
      ensures id == 7 ==> r.value == Integer(daylightSavingsDeviation)
      ensures id == 8 ==> r.value == Unsigned(daylightSavingsEnabled)
      ensures id == 9 ==> r.value.Enum? && ClockBaseFromByte(r.value.enumValue) == Some(clockBase)
    {
      match id
      case 1 => Ok(LogicalNameValue(logicalName))
      case 2 =>
        DateTimeFromEncoded(time);
        Ok(OctetString(EncodeDateTime(time)))
      case 3 => Ok(Long(timeZone))
      case 4 => Ok(Unsigned(status))
      case 5 =>
        DateTimeFromEncoded(daylightSavingsBegin);
        Ok(OctetString(EncodeDateTime(daylightSavingsBegin)))
      case 6 =>
        DateTimeFromEncoded(daylightSavingsEnd);
        Ok(OctetString(EncodeDateTime(daylightSavingsEnd)))
      case 7 => Ok(Integer(daylightSavingsDeviation))
      case 8 => Ok(Unsigned(daylightSavingsEnabled))
      case 9 =>
        ClockBaseRoundTrip(clockBase);
        Ok(Enum(ClockBaseToByte(clockBase)))
      case _ => Err(G.ObjectUndefined)
    }

    /** The effect of `set_attribute`: the addressed field takes the decoded value when accepted. */
    twostate predicate Written(id: i8, v: Data)
      reads this
    {
      var ok := WriteOutcome(id, v).Ok?;
      && time == (if id == 2 && ok then DateTimeFrom(v).value else old(time))
      && timeZone == (if id == 3 && ok then v.i16 else old(timeZone))
      && status == (if id == 4 && ok then v.u8 else old(status))
      && daylightSavingsBegin == (if id == 5 && ok then DateTimeFrom(v).value else old(daylightSavingsBegin))
      && daylightSavingsEnd == (if id == 6 && ok then DateTimeFrom(v).value else old(daylightSavingsEnd))
      && daylightSavingsDeviation == (if id == 7 && ok then v.i8 else old(daylightSavingsDeviation))
      && daylightSavingsEnabled == (if id == 8 && ok then v.u8 else old(daylightSavingsEnabled))
      && clockBase == (if id == 9 && ok then ClockBaseFromByte(v.enumValue).value else old(clockBase))
      && presetTime == old(presetTime)
    }

    /**
     * `set_attribute`: every refusal changes nothing, and an accepted value is what the
     * getter returns afterwards.
     */
    method SetAttribute(id: i8, v: Data) returns (r: Result<(), G.DataAccessResult>)
      modifies this
      ensures r == WriteOutcome(id, v)
      ensures Written(id, v)
      ensures r.Ok? ==> GetAttribute(id) == Ok(v)
      ensures old(Valid()) ==> Valid()
    {
      r := WriteOutcome(id, v);
      if r.Ok? {
        match id
        case 2 => time := DateTimeFrom(v).value;
        case 3 => timeZone := v.i16;
        case 4 => status := v.u8;
        case 5 => daylightSavingsBegin := DateTimeFrom(v).value;
        case 6 => daylightSavingsEnd := DateTimeFrom(v).value;
        case 7 => daylightSavingsDeviation := v.i8;
        case 8 => daylightSavingsEnabled := v.u8;
        case 9 => clockBase := ClockBaseFromByte(v.enumValue).value;
        case _ =>
      }
    }

    /**
     * `invoke_method`. Methods 1-3 take no parameter, 4 and 5 a 12-octet date-time, 6 a
     * Long number of seconds; anything else is TypeUnmatched and changes nothing.
     */
    method InvokeMethod(id: i8, parameters: Option<Data>) returns (r: Result<Option<Data>, A.ActionResult>)
      modifies this
      ensures !(1 <= id <= 6) ==> r == Err(A.ObjectUndefined)
      ensures 1 <= id <= 3 ==> (r.Ok? <==> parameters.None?)
      ensures (id == 4 || id == 5) ==> (r.Ok? <==> parameters.Some? && DateTimeFrom(parameters.value).Some?)
      ensures id == 6 ==> (r.Ok? <==> parameters.Some? && parameters.value.Long?)
      ensures 1 <= id <= 6 && r.Err? ==> r.error == A.TypeUnmatched
      ensures r.Ok? ==> r.value == Some(Integer(0))
      ensures r.Ok? && (id == 1 || id == 2) ==> time == Quartered(old(time))
      ensures r.Ok? && id == 3 ==> time == MinuteRounded(old(time))
      ensures r.Ok? && id == 4 ==> time == DateTimeFrom(parameters.value).value
      ensures r.Ok? && id == 6 ==> time == Shifted(old(time), parameters.value.i16)
      ensures presetTime == (if r.Ok? && id == 5 then DateTimeFrom(parameters.value).value else old(presetTime))
      ensures r.Err? || id == 5 ==> time == old(time)
      ensures timeZone == old(timeZone) && status == old(status) && clockBase == old(clockBase)
      ensures daylightSavingsBegin == old(daylightSavingsBegin) && daylightSavingsEnd == old(daylightSavingsEnd)
      ensures daylightSavingsDeviation == old(daylightSavingsDeviation) && daylightSavingsEnabled == old(daylightSavingsEnabled)
    {
      match id
      case 1 =>
        if parameters.Some? { return Err(A.TypeUnmatched); }
        r := AdjustToQuarter();
      case 2 =>
        if parameters.Some? { return Err(A.TypeUnmatched); }
        r := AdjustToMeasuringPeriod();
      case 3 =>
        if parameters.Some? { return Err(A.TypeUnmatched); }
        r := AdjustToMinute();
      case 4 =>
        if parameters.Some? && DateTimeFrom(parameters.value).Some? {
          r := AdjustToPresetTime(DateTimeFrom(parameters.value).value);
        } else {
          r := Err(A.TypeUnmatched);
        }
      case 5 =>
        if parameters.Some? && DateTimeFrom(parameters.value).Some? {
          r := PresetAdjustingTime(DateTimeFrom(parameters.value).value);
        } else {
          r := Err(A.TypeUnmatched);
        }
      case 6 =>
        if parameters.Some? && parameters.value.Long? {
          r := ShiftTime(parameters.value.i16);
        } else {
          r := Err(A.TypeUnmatched);
        }
      case _ => r := Err(A.ObjectUndefined);
    }
  }
}
