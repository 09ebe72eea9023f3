/**
 * Week bucketing: get_week_start from bot.py.
 *
 * A naive local datetime is modelled as a proleptic Gregorian day ordinal
 * (Python's date.toordinal(), 1 = 0001-01-01) plus the microseconds elapsed
 * since midnight of that day. Python's datetime ordering is the lexicographic
 * ordering of its fields, which for valid datetimes is the ordering of Instant.
 */
module WeekBucket {
  import opened Wrappers

  const MicrosPerSecond: int := 1_000_000
  const MicrosPerMinute: int := 60 * MicrosPerSecond
  const MicrosPerHour: int := 60 * MicrosPerMinute
  const MicrosPerDay: int := 24 * MicrosPerHour
  const MicrosPerWeek: int := 7 * MicrosPerDay

  /** Ordinals of date.min (0001-01-01) and date.max (9999-12-31). */
  const MinOrdinal: int := 1
  const MaxOrdinal: int := 3_652_059

  /** The weekday on which every tracking week starts: Friday (Monday is 0). */
  const WeekStartDay: int := 4

  /** Ordinal of the first Friday Python can represent (0001-01-05). */
  const FirstWeekStartOrdinal: int := 5

  datatype DateTime = DateTime(ordinal: int, micros: int)

  predicate ValidDateTime(dt: DateTime) {
    MinOrdinal <= dt.ordinal <= MaxOrdinal && 0 <= dt.micros < MicrosPerDay
  }

  /** Microseconds since midnight before day 1; comparisons of datetimes use this. */
  function Instant(dt: DateTime): int {
    dt.ordinal * MicrosPerDay + dt.micros
  }

  function Hour(dt: DateTime): int { dt.micros / MicrosPerHour }
  function Minute(dt: DateTime): int { dt.micros / MicrosPerMinute % 60 }
  function Second(dt: DateTime): int { dt.micros / MicrosPerSecond % 60 }
  function Microsecond(dt: DateTime): int { dt.micros % MicrosPerSecond }

  /** datetime.weekday(): Monday is 0 and Sunday is 6. */
  function Weekday(dt: DateTime): (w: int)
    ensures 0 <= w < 7
  {
    (dt.ordinal + 6) % 7
  }

  /** The weekday moves on by one every day, wrapping from Sunday (6) to Monday (0); 0001-01-01 is a Monday. */
  lemma WeekdayAdvancesDaily(dt: DateTime)
    ensures Weekday(DateTime(dt.ordinal + 1, dt.micros)) == if Weekday(dt) == 6 then 0 else Weekday(dt) + 1
    ensures Weekday(DateTime(MinOrdinal, 0)) == 0
  {
  }

  /**
   * Python's `>=` on naive datetimes compares the fields in order (date, then
   * time of day); for valid datetimes that is the order of their instants.
   */
  predicate AtOrAfter(a: DateTime, b: DateTime)
    ensures ValidDateTime(a) && ValidDateTime(b) ==> (AtOrAfter(a, b) <==> Instant(a) >= Instant(b))
  {
    a.ordinal > b.ordinal || (a.ordinal == b.ordinal && a.micros >= b.micros)
  }

  /** Midnight of a week's first day. */
  predicate IsWeekStart(dt: DateTime) {
    dt.micros == 0 && Weekday(dt) == WeekStartDay
  }

  /** dt.replace(hour=0, minute=0, second=0, microsecond=0). */
  function Midnight(dt: DateTime): (r: DateTime)
    requires ValidDateTime(dt)
    ensures ValidDateTime(r) && r.ordinal == dt.ordinal
    ensures Hour(r) == 0 && Minute(r) == 0 && Second(r) == 0 && Microsecond(r) == 0
    ensures Instant(r) <= Instant(dt) < Instant(r) + MicrosPerDay
  {
    DateTime(dt.ordinal, 0)
  }

  /**
   * dt - timedelta(days=k). Python raises OverflowError when the result
   * would fall before date.min; that case is None.
   */
  function MinusDays(dt: DateTime, k: nat): (r: Option<DateTime>)
    requires ValidDateTime(dt)
    ensures r.None? <==> dt.ordinal - k < MinOrdinal
    ensures r.Some? ==> ValidDateTime(r.value) && r.value.micros == dt.micros
    ensures r.Some? ==> Instant(r.value) == Instant(dt) - k * MicrosPerDay
  {
    if dt.ordinal - k < MinOrdinal then None else Some(DateTime(dt.ordinal - k, dt.micros))
  }

  /**
   * get_week_start: midnight of the most recent Friday at or before dt.
   * None is the OverflowError raised for the four days before the first
   * representable Friday.
   */
  function GetWeekStart(dt: DateTime): (r: Option<DateTime>)
    requires ValidDateTime(dt)
    ensures r.None? <==> dt.ordinal < FirstWeekStartOrdinal
    ensures r.Some? ==> ValidDateTime(r.value) && IsWeekStart(r.value)
    ensures r.Some? ==> Hour(r.value) == 0 && Minute(r.value) == 0 && Second(r.value) == 0 && Microsecond(r.value) == 0
    ensures r.Some? ==> Instant(r.value) <= Instant(dt) < Instant(r.value) + MicrosPerWeek
    ensures Weekday(dt) == WeekStartDay ==> r == Some(DateTime(dt.ordinal, 0))
  {
    var daysSinceStart := (Weekday(dt) - WeekStartDay) % 7;
    MinusDays(Midnight(dt), daysSinceStart)
  }

  /** Two week starts less than a week apart are the same day. */
  lemma WeekStartsWithinAWeekAreEqual(a: DateTime, b: DateTime)
    requires IsWeekStart(a) && IsWeekStart(b)
    requires Instant(a) <= Instant(b) < Instant(a) + MicrosPerWeek
    ensures a == b
  {
  }

  /**
   * GetWeekStart is characterised without reference to its algorithm: it
   * yields w exactly when w is a week start in the week ending at dt.
   */
  lemma GetWeekStartCharacterised(dt: DateTime, w: DateTime)
    requires ValidDateTime(dt) && ValidDateTime(w)
    ensures GetWeekStart(dt) == Some(w) <==>
              IsWeekStart(w) && Instant(w) <= Instant(dt) < Instant(w) + MicrosPerWeek
  {
    if IsWeekStart(w) && Instant(w) <= Instant(dt) < Instant(w) + MicrosPerWeek {
      var v := GetWeekStart(dt).value;
      if Instant(v) <= Instant(w) {
        WeekStartsWithinAWeekAreEqual(v, w);
      } else {
        WeekStartsWithinAWeekAreEqual(w, v);
      }
    }
  }

  /** The week start is the latest week start at or before dt. */
  lemma GetWeekStartIsLatest(dt: DateTime, m: DateTime)
    requires ValidDateTime(dt) && ValidDateTime(m)
    requires IsWeekStart(m) && Instant(m) <= Instant(dt)
    ensures GetWeekStart(dt).Some?
    ensures Instant(m) <= Instant(GetWeekStart(dt).value)
  {
  }

  /** get_week_start(get_week_start(dt)) == get_week_start(dt). */
  lemma GetWeekStartIdempotent(dt: DateTime)
    requires ValidDateTime(dt)
    requires GetWeekStart(dt).Some?
    ensures GetWeekStart(GetWeekStart(dt).value) == GetWeekStart(dt)
  {
  }

  /** Later datetimes never fall in an earlier week. */
  lemma GetWeekStartMonotonic(a: DateTime, b: DateTime)
    requires ValidDateTime(a) && ValidDateTime(b)
    requires GetWeekStart(a).Some? && Instant(a) <= Instant(b)
    ensures GetWeekStart(b).Some?
    ensures Instant(GetWeekStart(a).value) <= Instant(GetWeekStart(b).value)
  {
    GetWeekStartIsLatest(b, GetWeekStart(a).value);
  }
}
