/** Proleptic Gregorian civil date-times in UTC and the instants they denote.

    An instant is a whole number of microseconds since 0001-01-01T00:00:00 UTC,
    the smallest value Python's `datetime` can hold; the largest valid instant
    is 9999-12-31T23:59:59.999999. The program only ever compares UTC values,
    and comparing two such values compares their instants. */
module Civil {

  const MinYear := 1
  const MaxYear := 9999
  const MicrosPerSecond := 1_000_000
  const MicrosPerDay := 86_400_000_000
  /** Ordinal day number of 9999-12-31, day 1 being 0001-01-01. */
  const MaxOrdinal := 3_652_059
  /** The instant of 9999-12-31T23:59:59.999999. */
  const MaxInstant := MaxOrdinal * MicrosPerDay - 1

  type Instant = int

  datatype Date = Date(year: int, month: int, day: int)
  datatype Time = Time(hour: int, minute: int, second: int, micro: int)
  datatype DateTime = DateTime(date: Date, time: Time)

  const Midnight := Time(0, 0, 0, 0)

  predicate IsLeap(y: int) {
    y % 4 == 0 && (y % 100 != 0 || y % 400 == 0)
  }

  function DaysInYear(y: int): int {
    if IsLeap(y) then 366 else 365
  }

  function DaysInMonth(y: int, m: int): int
    requires 1 <= m <= 12
  {
    if m == 2 then (if IsLeap(y) then 29 else 28)
    else if m == 4 || m == 6 || m == 9 || m == 11 then 30
    else 31
  }

  predicate ValidDate(d: Date) {
    && MinYear <= d.year <= MaxYear
    && 1 <= d.month <= 12
    && 1 <= d.day <= DaysInMonth(d.year, d.month)
  }

  predicate ValidTime(t: Time) {
    && 0 <= t.hour < 24
    && 0 <= t.minute < 60
    && 0 <= t.second < 60
    && 0 <= t.micro < MicrosPerSecond
  }

  predicate ValidDateTime(dt: DateTime) {
    ValidDate(dt.date) && ValidTime(dt.time)
  }

  predicate ValidInstant(t: Instant) {
    0 <= t <= MaxInstant
  }

  /** Days in the years before year `y` (meaningful for `y >= 1`). */
  function DaysBeforeYear(y: int): int {
    var p := y - 1;
    365 * p + p / 4 - p / 100 + p / 400
  }

  /** Days in the months of year `y` before month `m`; month 13 stands for
      the end of the year (meaningful for `1 <= m <= 13`). */
  function DaysBeforeMonth(y: int, m: int): int {
    var cumulative := [0, 31, 59, 90, 120, 151, 181, 212, 243, 273, 304, 334, 365];
    if 1 <= m <= 13 then cumulative[m - 1] + (if m > 2 && IsLeap(y) then 1 else 0) else 0
  }

  /** Ordinal day number of a date, 0001-01-01 being day 1. */
  function Ordinal(d: Date): int {
    DaysBeforeYear(d.year) + DaysBeforeMonth(d.year, d.month) + d.day
  }

  /** Microseconds elapsed since midnight. */
  function TimeMicros(t: Time): int {
    ((t.hour * 60 + t.minute) * 60 + t.second) * MicrosPerSecond + t.micro
  }

  /** The instant a date-time denotes (meaningful when it is valid). */
  function ToInstant(dt: DateTime): Instant {
    (Ordinal(dt.date) - 1) * MicrosPerDay + TimeMicros(dt.time)
  }

  /** Strict chronological order on dates, field by field. */
  predicate DateBefore(a: Date, b: Date) {
    || a.year < b.year
    || (a.year == b.year && a.month < b.month)
    || (a.year == b.year && a.month == b.month && a.day < b.day)
  }

  predicate TimeBefore(a: Time, b: Time) {
    || a.hour < b.hour
    || (a.hour == b.hour && a.minute < b.minute)
    || (a.hour == b.hour && a.minute == b.minute && a.second < b.second)
    || (a.hour == b.hour && a.minute == b.minute && a.second == b.second && a.micro < b.micro)
  }

  /** Strict order on date-times: by date, then by time of day. */
  predicate Before(a: DateTime, b: DateTime) {
    DateBefore(a.date, b.date) || (a.date == b.date && TimeBefore(a.time, b.time))
  }

  lemma TimeMicrosBounds(t: Time)
    requires ValidTime(t)
    ensures 0 <= TimeMicros(t) < MicrosPerDay
  {
  }

  lemma TimeMicrosOrder(a: Time, b: Time)
    requires ValidTime(a) && ValidTime(b)
    ensures TimeBefore(a, b) ==> TimeMicros(a) < TimeMicros(b)
  {
  }

  /** One more year adds exactly that year's length. */
  lemma DaysBeforeNextYear(y: int)
    requires y >= 1
    ensures DaysBeforeYear(y + 1) == DaysBeforeYear(y) + DaysInYear(y)
  {
    var p := y - 1;
    assert p / 4 + (if y % 4 == 0 then 1 else 0) == y / 4;
    assert p / 100 + (if y % 100 == 0 then 1 else 0) == y / 100;
    assert p / 400 + (if y % 400 == 0 then 1 else 0) == y / 400;
  }

  lemma {:induction false} DaysBeforeYearGrows(y1: int, y2: int)
    requires 1 <= y1 < y2
    ensures DaysBeforeYear(y1) + DaysInYear(y1) <= DaysBeforeYear(y2)
    decreases y2 - y1
  {
    DaysBeforeNextYear(y1);
    if y1 + 1 < y2 {
      DaysBeforeYearGrows(y1 + 1, y2);
    }
  }

  lemma DaysBeforeMonthStep(y: int, m: int)
    requires 1 <= m <= 12
    ensures DaysBeforeMonth(y, m + 1) == DaysBeforeMonth(y, m) + DaysInMonth(y, m)
  {
  }

  lemma {:induction false} DaysBeforeMonthGrows(y: int, m1: int, m2: int)
    requires 1 <= m1 < m2 <= 13
    ensures DaysBeforeMonth(y, m1) + DaysInMonth(y, m1) <= DaysBeforeMonth(y, m2)
    decreases m2 - m1
  {
    DaysBeforeMonthStep(y, m1);
    if m1 + 1 < m2 {
      DaysBeforeMonthGrows(y, m1 + 1, m2);
    }
  }

  /** Later dates have larger ordinals. */
  lemma {:induction false} OrdinalOrder(a: Date, b: Date)
    requires ValidDate(a) && ValidDate(b)
    ensures DateBefore(a, b) ==> Ordinal(a) < Ordinal(b)
  {
    if a.year < b.year {
      DaysBeforeMonthGrows(a.year, a.month, 13);
      assert DaysBeforeMonth(a.year, 13) == DaysInYear(a.year);
      DaysBeforeYearGrows(a.year, b.year);
    } else if a.year == b.year && a.month < b.month {
      DaysBeforeMonthGrows(a.year, a.month, b.month);
    }
  }

  /** Chronological order of valid date-times is the order of their instants;
      in particular two valid date-times denote the same instant only when
      all their fields agree. */
  lemma InstantOrder(a: DateTime, b: DateTime)
    requires ValidDateTime(a) && ValidDateTime(b)
    ensures Before(a, b) <==> ToInstant(a) < ToInstant(b)
    ensures ToInstant(a) == ToInstant(b) <==> a == b
  {
    TimeMicrosBounds(a.time);
    TimeMicrosBounds(b.time);
    OrdinalOrder(a.date, b.date);
    OrdinalOrder(b.date, a.date);
    TimeMicrosOrder(a.time, b.time);
    TimeMicrosOrder(b.time, a.time);
  }

  /** 0001-01-01T00:00:00, the earliest valid date-time. */
  const First := DateTime(Date(MinYear, 1, 1), Midnight)
  /** 9999-12-31T23:59:59.999999, the latest valid date-time. */
  const Last := DateTime(Date(MaxYear, 12, 31), Time(23, 59, 59, MicrosPerSecond - 1))

  lemma EndpointInstants()
    ensures ValidDateTime(First) && ToInstant(First) == 0
    ensures ValidDateTime(Last) && ToInstant(Last) == MaxInstant
  {
    assert DaysBeforeYear(MaxYear) == 3_651_694;
    assert DaysBeforeMonth(MaxYear, 12) == 334;
  }

  /** Every valid date-time denotes an instant Python's `datetime` can hold. */
  lemma InstantBounds(dt: DateTime)
    requires ValidDateTime(dt)
    ensures ValidInstant(ToInstant(dt))
  {
    EndpointInstants();
    InstantOrder(First, dt);
    InstantOrder(dt, Last);
  }

  /** A date-time's instant splits into the day it falls on and the time
      elapsed since that day's midnight. */
  lemma InstantSplit(dt: DateTime)
    requires ValidDateTime(dt)
    ensures ToInstant(dt) / MicrosPerDay == Ordinal(dt.date) - 1
    ensures ToInstant(dt) % MicrosPerDay == TimeMicros(dt.time)
  {
    TimeMicrosBounds(dt.time);
  }
}
