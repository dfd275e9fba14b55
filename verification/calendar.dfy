/** Proleptic Gregorian calendar arithmetic, as Python's `datetime` does it, and the
    instants that timezone-aware datetimes denote. */
module Calendar {

  /** The naive fields `strptime` fills in: a wall-clock reading without a zone. */
  datatype WallClock = WallClock(year: int, month: int, day: int, hour: int, minute: int, second: int)

  /** An absolute point in time: microseconds since 1970-01-01T00:00:00 UTC. Aware
      datetimes compare by the instant they denote. */
  datatype Instant = Instant(micros: int)

  const MicrosPerSecond: int := 1000000

  /** Ordinal of 1970-01-01 when 0001-01-01 has ordinal 1 (`date.toordinal`). */
  const EpochOrdinal: int := 719163

  predicate Before(a: Instant, b: Instant) {
    a.micros < b.micros
  }

  predicate IsLeapYear(y: int) {
    y % 4 == 0 && (y % 100 != 0 || y % 400 == 0)
  }

  function DaysInYear(y: int): int {
    if IsLeapYear(y) then 366 else 365
  }

  function DaysInMonth(y: int, m: int): (n: int)
    requires 1 <= m <= 12
    ensures 28 <= n <= 31
  {
    if m == 2 then (if IsLeapYear(y) then 29 else 28)
    else if m == 4 || m == 6 || m == 9 || m == 11 then 30
    else 31
  }

  /** The range checks `datetime(...)` applies to what `strptime` matched
      (MINYEAR 1, MAXYEAR 9999, the month's length, leap years). */
  predicate ValidWallClock(w: WallClock) {
    && 1 <= w.year <= 9999
    && 1 <= w.month <= 12
    && 1 <= w.day <= DaysInMonth(w.year, w.month)
    && 0 <= w.hour <= 23
    && 0 <= w.minute <= 59
    && 0 <= w.second <= 59
  }

  /** Days in the years 1 .. y-1. */
  function DaysBeforeYear(y: int): int
    requires y >= 1
  {
    var p := y - 1;
    365 * p + p / 4 - p / 100 + p / 400
  }

  /** Days in the months 1 .. m-1 of year y. */
  function DaysBeforeMonth(y: int, m: int): int
    requires 1 <= m <= 12
  {
    var cumulative := [0, 31, 59, 90, 120, 151, 181, 212, 243, 273, 304, 334];
    cumulative[m - 1] + (if m > 2 && IsLeapYear(y) then 1 else 0)
  }

  function Ordinal(w: WallClock): int
    requires ValidWallClock(w)
  {
    DaysBeforeYear(w.year) + DaysBeforeMonth(w.year, w.month) + w.day
  }

  function SecondOfDay(w: WallClock): int {
    w.hour * 3600 + w.minute * 60 + w.second
  }

  /** 1970-01-01 is the day with ordinal `EpochOrdinal`. */
  lemma EpochDay()
    ensures Ordinal(WallClock(1970, 1, 1, 0, 0, 0)) == EpochOrdinal
  {
  }

  /** The instant a wall-clock reading with `micro` microseconds denotes in a zone
      `offsetSeconds` east of UTC: local time minus the offset. */
  function InstantAt(w: WallClock, micro: int, offsetSeconds: int): (t: Instant)
    requires ValidWallClock(w)
    ensures Ordinal(w) == EpochOrdinal && SecondOfDay(w) == 0 ==> t.micros == micro - offsetSeconds * MicrosPerSecond
  {
    var localSeconds := (Ordinal(w) - EpochOrdinal) * 86400 + SecondOfDay(w);
    Instant((localSeconds - offsetSeconds) * 1000000 + micro)
  }

  /** Field-by-field order (year, month, day, hour, minute, second, microsecond): the
      order Python uses when both datetimes carry the same tzinfo object. */
  predicate FieldsBefore(a: WallClock, am: int, b: WallClock, bm: int) {
    if a.year != b.year then a.year < b.year
    else if a.month != b.month then a.month < b.month
    else if a.day != b.day then a.day < b.day
    else if a.hour != b.hour then a.hour < b.hour
    else if a.minute != b.minute then a.minute < b.minute
    else if a.second != b.second then a.second < b.second
    else am < bm
  }

  lemma DaysBeforeYearStep(y: int)
    requires y >= 1
    ensures DaysBeforeYear(y + 1) == DaysBeforeYear(y) + DaysInYear(y)
  {
    var p := y - 1;
    Div4Step(p);
    Div100Step(p);
    Div400Step(p);
  }

  lemma Div4Step(p: int)
    requires p >= 0
    ensures (p + 1) / 4 == p / 4 + (if (p + 1) % 4 == 0 then 1 else 0)
  {
  }

  lemma Div100Step(p: int)
    requires p >= 0
    ensures (p + 1) / 100 == p / 100 + (if (p + 1) % 100 == 0 then 1 else 0)
  {
  }

  lemma Div400Step(p: int)
    requires p >= 0
    ensures (p + 1) / 400 == p / 400 + (if (p + 1) % 400 == 0 then 1 else 0)
  {
  }

  /** A whole year lies between the start of year `a` and any later year `b`. */
  lemma {:induction false} DaysBeforeYearGrows(a: int, b: int)
    requires 1 <= a < b
    ensures DaysBeforeYear(a) + DaysInYear(a) <= DaysBeforeYear(b)
    decreases b - a
  {
    DaysBeforeYearStep(a);
    if a + 1 < b {
      DaysBeforeYearGrows(a + 1, b);
    }
  }

  lemma DaysBeforeMonthStep(y: int, m: int)
    requires 1 <= m < 12
    ensures DaysBeforeMonth(y, m + 1) == DaysBeforeMonth(y, m) + DaysInMonth(y, m)
  {
  }

  lemma {:induction false} DaysBeforeMonthGrows(y: int, a: int, b: int)
    requires 1 <= a < b <= 12
    ensures DaysBeforeMonth(y, a) + DaysInMonth(y, a) <= DaysBeforeMonth(y, b)
    decreases b - a
  {
    DaysBeforeMonthStep(y, a);
    if a + 1 < b {
      DaysBeforeMonthGrows(y, a + 1, b);
    }
  }

  /** The days of a year's months do not spill into the next year. */
  lemma DaysBeforeMonthInYear(y: int, m: int)
    requires 1 <= m <= 12
    ensures DaysBeforeMonth(y, m) + DaysInMonth(y, m) <= DaysInYear(y)
  {
  }

  /** A strictly later calendar date has a strictly larger ordinal. */
  lemma OrdinalMonotone(a: WallClock, b: WallClock)
    requires ValidWallClock(a) && ValidWallClock(b)
    requires a.year < b.year || (a.year == b.year && a.month < b.month)
             || (a.year == b.year && a.month == b.month && a.day < b.day)
    ensures Ordinal(a) < Ordinal(b)
  {
    if a.year < b.year {
      DaysBeforeMonthInYear(a.year, a.month);
      DaysBeforeYearGrows(a.year, b.year);
    } else if a.month < b.month {
      DaysBeforeMonthGrows(a.year, a.month, b.month);
    }
  }

  /** Comparing two readings in the same zone field by field agrees with comparing
      the instants they denote, in both directions. This is why the model may
      compare expiry and reference time as instants. */
  lemma FieldOrderIsInstantOrder(a: WallClock, am: int, b: WallClock, bm: int, offsetSeconds: int)
    requires ValidWallClock(a) && ValidWallClock(b)
    requires 0 <= am < MicrosPerSecond && 0 <= bm < MicrosPerSecond
    ensures FieldsBefore(a, am, b, bm)
            <==> Before(InstantAt(a, am, offsetSeconds), InstantAt(b, bm, offsetSeconds))
  {
    if FieldsBefore(a, am, b, bm) {
      FieldsBeforeImpliesBefore(a, am, b, bm, offsetSeconds);
    } else if FieldsBefore(b, bm, a, am) {
      FieldsBeforeImpliesBefore(b, bm, a, am, offsetSeconds);
    } else {
      assert a == b && am == bm;
    }
  }

  lemma FieldsBeforeImpliesBefore(a: WallClock, am: int, b: WallClock, bm: int, offsetSeconds: int)
    requires ValidWallClock(a) && ValidWallClock(b)
    requires 0 <= am < MicrosPerSecond && 0 <= bm < MicrosPerSecond
    requires FieldsBefore(a, am, b, bm)
    ensures Before(InstantAt(a, am, offsetSeconds), InstantAt(b, bm, offsetSeconds))
  {
    var sa := (Ordinal(a) - EpochOrdinal) * 86400 + SecondOfDay(a) - offsetSeconds;
    var sb := (Ordinal(b) - EpochOrdinal) * 86400 + SecondOfDay(b) - offsetSeconds;
    assert InstantAt(a, am, offsetSeconds).micros == sa * 1000000 + am;
    assert InstantAt(b, bm, offsetSeconds).micros == sb * 1000000 + bm;
    if a.year != b.year || a.month != b.month || a.day != b.day {
      OrdinalMonotone(a, b);
      assert sa < sb by {
        assert 0 <= SecondOfDay(a) < 86400 && 0 <= SecondOfDay(b);
        assert (Ordinal(b) - EpochOrdinal) * 86400
               >= (Ordinal(a) - EpochOrdinal) * 86400 + 86400;
      }
    } else {
      assert Ordinal(a) == Ordinal(b);
      assert sa <= sb;
    }
    assert sa * 1000000 + am < sb * 1000000 + bm by {
      if sa < sb {
        assert sb * 1000000 >= sa * 1000000 + 1000000;
      }
    }
  }
}
