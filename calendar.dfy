/**
 * The values the source takes from Python's `datetime` module: proleptic
 * Gregorian dates in years 1..9999, datetimes at whole-second precision with an
 * optional fixed UTC offset (standing in for `tzinfo`), and Python's ordering
 * of datetimes.
 */
module Calendar {
  import opened Wrappers

  const MinYear := 1
  const MaxYear := 9999
  /** Python accepts a UTC offset only strictly inside one day; offsets are kept in minutes. */
  const MinutesPerDay := 24 * 60

  datatype Date = Date(year: int, month: int, day: int)

  predicate IsLeapYear(year: int)
  {
    year % 4 == 0 && (year % 100 != 0 || year % 400 == 0)
  }

  function DaysInMonth(year: int, month: int): (n: int)
    requires 1 <= month <= 12
    ensures 28 <= n <= 31
    ensures month == 2 ==> (n == 29 <==> IsLeapYear(year))
  {
    if month == 2 then (if IsLeapYear(year) then 29 else 28)
    else if month == 4 || month == 6 || month == 9 || month == 11 then 30
    else 31
  }

  /** What Python's `date(year, month, day)` accepts. */
  predicate ValidDate(d: Date)
  {
    MinYear <= d.year <= MaxYear && 1 <= d.month <= 12 && 1 <= d.day <= DaysInMonth(d.year, d.month)
  }

  /** A native `date` value: Python cannot construct any other. */
  type CalendarDate = d: Date | ValidDate(d) witness Date(1970, 1, 1)

  /** Python's `date(year, month, day)`; `None` where the constructor raises `ValueError`. */
  function MakeDate(year: int, month: int, day: int): (r: Option<CalendarDate>)
    ensures r.Some? <==> ValidDate(Date(year, month, day))
    ensures r.Some? ==> r.value == Date(year, month, day)
  {
    var d := Date(year, month, day);
    if ValidDate(d) then Some(d) else None
  }

  /**
   * A datetime; `offset` is the UTC offset in minutes east of Greenwich, or
   * `None` for a naive value (one without `tzinfo`).
   */
  datatype DateTime = DateTime(date: Date, hour: int, minute: int, second: int, offset: Option<int>)

  predicate ValidDateTime(t: DateTime)
  {
    && ValidDate(t.date)
    && 0 <= t.hour < 24 && 0 <= t.minute < 60 && 0 <= t.second < 60
    && (t.offset.Some? ==> -MinutesPerDay < t.offset.value < MinutesPerDay)
  }

  /** A native `datetime` value. */
  type CalendarDateTime = t: DateTime | ValidDateTime(t) witness DateTime(Date(1970, 1, 1), 0, 0, 0, None)

  /** Python's `datetime(...)` constructor; `None` where it raises `ValueError`. */
  function MakeDateTime(date: CalendarDate, hour: int, minute: int, second: int, offset: Option<int>): (r: Option<CalendarDateTime>)
    ensures r.Some? <==> ValidDateTime(DateTime(date, hour, minute, second, offset))
    ensures r.Some? ==> r.value == DateTime(date, hour, minute, second, offset)
  {
    var t := DateTime(date, hour, minute, second, offset);
    if ValidDateTime(t) then Some(t) else None
  }

  predicate IsAware(t: DateTime) { t.offset.Some? }

  function DaysBeforeMonth(year: int, month: int): int
    requires 1 <= month <= 12
  {
    if month == 1 then 0 else DaysBeforeMonth(year, month - 1) + DaysInMonth(year, month - 1)
  }

  /** Python's `date.toordinal()`: 0001-01-01 is day 1. */
  function Ordinal(d: CalendarDate): int
  {
    var y := d.year - 1;
    365 * y + y / 4 - y / 100 + y / 400 + DaysBeforeMonth(d.year, d.month) + d.day
  }

  /** Seconds of the wall-clock reading since 0001-01-01 00:00:00, ignoring the offset. */
  function LocalSeconds(t: CalendarDateTime): int
  {
    Ordinal(t.date) * 86400 + t.hour * 3600 + t.minute * 60 + t.second
  }

  /** The instant an aware value denotes, in seconds; a naive value is read as UTC. */
  function UtcSeconds(t: CalendarDateTime): int
  {
    LocalSeconds(t) - t.offset.GetOr(0) * 60
  }

  /**
   * Python's `a < b` on datetimes: two aware values compare as instants, two
   * naive values by their wall-clock readings, and a naive value compared with
   * an aware one raises `TypeError`, which is `None` here.
   */
  function PyLess(a: CalendarDateTime, b: CalendarDateTime): (r: Option<bool>)
    ensures r.None? <==> IsAware(a) != IsAware(b)
    ensures r.Some? ==> (r.value <==> UtcSeconds(a) < UtcSeconds(b))
  {
    if IsAware(a) != IsAware(b) then None
    else Some(UtcSeconds(a) < UtcSeconds(b))
  }

  /** What `datetime.now(timezone.utc)` returns: an aware value at offset zero. */
  predicate IsUtcNow(now: CalendarDateTime)
  {
    now.offset == Some(0)
  }

  /** Whether `now` lies in a window whose absent ends are open, both ends included, compared as instants with naive values read as UTC. */
  predicate InWindow(now: CalendarDateTime, from: Option<CalendarDateTime>, until: Option<CalendarDateTime>)
  {
    && (from.Some? ==> UtcSeconds(from.value) <= UtcSeconds(now))
    && (until.Some? ==> UtcSeconds(now) <= UtcSeconds(until.value))
  }
}
