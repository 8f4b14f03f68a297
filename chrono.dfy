/**
 The part of the `chrono` crate that instant resolution calls: a date-time as
 its wall-clock fields, seen in one of two zones (UTC or the local system
 zone), and the three constructors `with_hour`, `with_minute` and
 `with_ymd_and_hms`. What chrono decides from data outside this program is
 injected through `TzEnv`: which year-month-day triples are calendar dates,
 and which local wall-clock readings name exactly one instant (not in a
 daylight-saving gap, not ambiguous in an overlap).
 */
module Chrono {
  import opened RustStd

  /** The wall-clock fields of a chrono `DateTime`. */
  datatype DateTime = DateTime(
    year: int, month: nat, day: nat,
    hour: nat, minute: nat, second: nat, nanos: nat)

  /** The two reference frames the program anchors input in. */
  datatype Zone = Utc | Local

  /** A `DateTime<Tz>`: a wall-clock reading together with its zone. */
  datatype Zoned = Zoned(zone: Zone, local: DateTime)

  /** Knowledge chrono takes from the calendar and the system's zone rules. */
  datatype TzEnv = TzEnv(
    isCalendarDate: (int, nat, nat) -> bool,
    isSingleLocal: DateTime -> bool)

  /** Whether a wall-clock reading in `zone` maps to exactly one instant;
      in UTC it always does. */
  predicate Single(env: TzEnv, zone: Zone, dt: DateTime) {
    zone == Utc || env.isSingleLocal(dt)
  }

  predicate SameDate(a: DateTime, b: DateTime) {
    a.year == b.year && a.month == b.month && a.day == b.day
  }

  /** A reading chrono can hold: a calendar date and an in-range time of day
      (`nanos` up to two seconds' worth, for a leap second). */
  predicate WellFormed(env: TzEnv, dt: DateTime) {
    && env.isCalendarDate(dt.year, dt.month, dt.day)
    && dt.hour < 24 && dt.minute < 60 && dt.second < 60
    && dt.nanos < 2_000_000_000
  }

  /** `Timelike::with_hour`: fails when the hour is 24 or more, or when the
      new reading is not a single instant in its zone; otherwise only the
      hour changes. */
  function WithHour(env: TzEnv, t: Zoned, h: nat): (r: Option<Zoned>)
    ensures r.Some? <==> h < 24 && Single(env, t.zone, t.local.(hour := h))
    ensures r.Some? ==> && r.value.zone == t.zone && r.value.local.hour == h
                        && SameDate(r.value.local, t.local)
                        && r.value.local.minute == t.local.minute
                        && r.value.local.second == t.local.second
                        && r.value.local.nanos == t.local.nanos
  {
    var dt := t.local.(hour := h);
    if h < 24 && Single(env, t.zone, dt) then Some(Zoned(t.zone, dt)) else None
  }

  /** `Timelike::with_minute`: fails when the minute is 60 or more, or when
      the new reading is not a single instant in its zone; otherwise only
      the minute changes. */
  function WithMinute(env: TzEnv, t: Zoned, m: nat): (r: Option<Zoned>)
    ensures r.Some? <==> m < 60 && Single(env, t.zone, t.local.(minute := m))
    ensures r.Some? ==> && r.value.zone == t.zone && r.value.local.minute == m
                        && SameDate(r.value.local, t.local)
                        && r.value.local.hour == t.local.hour
                        && r.value.local.second == t.local.second
                        && r.value.local.nanos == t.local.nanos
  {
    var dt := t.local.(minute := m);
    if m < 60 && Single(env, t.zone, dt) then Some(Zoned(t.zone, dt)) else None
  }

  /** `TimeZone::with_ymd_and_hms` followed by `LocalResult::unwrap`'s test:
      a result exists when the date is a calendar date, the time of day is in
      range, and the reading is a single instant in the zone. The result has
      exactly the given fields and no fraction of a second. */
  function WithYmdAndHms(env: TzEnv, zone: Zone, y: int, mo: nat, d: nat, h: nat, mi: nat, s: nat)
    : (r: Option<Zoned>)
    ensures r.Some? <==> && env.isCalendarDate(y, mo, d) && h < 24 && mi < 60 && s < 60
                         && Single(env, zone, DateTime(y, mo, d, h, mi, s, 0))
    ensures r.Some? ==> && r.value.zone == zone
                        && r.value.local.year == y && r.value.local.month == mo
                        && r.value.local.day == d && r.value.local.hour == h
                        && r.value.local.minute == mi && r.value.local.second == s
                        && r.value.local.nanos == 0
    ensures r.Some? ==> WellFormed(env, r.value.local)
  {
    var dt := DateTime(y, mo, d, h, mi, s, 0);
    if env.isCalendarDate(y, mo, d) && h < 24 && mi < 60 && s < 60 && Single(env, zone, dt) then
      Some(Zoned(zone, dt))
    else
      None
  }
}
