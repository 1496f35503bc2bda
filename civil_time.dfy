/**
 * UTC calendar time for Unix timestamps: what `datetime.fromtimestamp(t, tz=timezone.utc)`
 * computes, and its inverse `datetime.timestamp()`.  Pure integer arithmetic on the
 * proleptic Gregorian calendar, years 1 to 9999 (the range of Python's `datetime`).
 */
module CivilTime {
  import DecimalDigits

  /** A calendar time in UTC, whole seconds (the handlers only ever build one from an integer timestamp). */
  datatype DateTime = DateTime(year: int, month: int, day: int, hour: int, minute: int, second: int)

  /** A calendar date. */
  datatype Date = Date(year: int, month: int, day: int)

  const MIN_YEAR := 1
  const MAX_YEAR := 9999
  const SECONDS_PER_DAY := 86400

  /** Days from 0001-01-01 to 1970-01-01, i.e. DaysBeforeYear(1970). */
  const EPOCH_DAYS := 719162

  /** Seconds since the Epoch of 0001-01-01 00:00:00 and of 9999-12-31 23:59:59. */
  const MIN_TIMESTAMP := -62135596800
  const MAX_TIMESTAMP := 253402300799

  // Days in 400, 100, 4 and 1 Gregorian years (the last three without their final leap day).
  const DAYS_400Y := 146097
  const DAYS_100Y := 36524
  const DAYS_4Y := 1461
  const DAYS_1Y := 365

  predicate IsLeap(y: int) {
    y % 4 == 0 && (y % 100 != 0 || y % 400 == 0)
  }

  function DaysInYear(y: int): int {
    if IsLeap(y) then 366 else 365
  }

  function DaysInMonth(y: int, m: int): int
    requires 1 <= m <= 12
  {
    if m == 2 then (if IsLeap(y) then 29 else 28)
    else if m == 4 || m == 6 || m == 9 || m == 11 then 30
    else 31
  }

  /** Days in the months of year y that come before month m. */
  function DaysBeforeMonth(y: int, m: int): int
    requires 1 <= m <= 12
  {
    [0, 31, 59, 90, 120, 151, 181, 212, 243, 273, 304, 334][m - 1]
      + (if m > 2 && IsLeap(y) then 1 else 0)
  }

  /** Days from 0001-01-01 to the first day of year y. */
  function DaysBeforeYear(y: int): int {
    var p := y - 1;
    365 * p + p / 4 - p / 100 + p / 400
  }

  predicate ValidDate(d: Date) {
    MIN_YEAR <= d.year <= MAX_YEAR && 1 <= d.month <= 12 && 1 <= d.day <= DaysInMonth(d.year, d.month)
  }

  predicate Valid(dt: DateTime) {
    && ValidDate(Date(dt.year, dt.month, dt.day))
    && 0 <= dt.hour < 24 && 0 <= dt.minute < 60 && 0 <= dt.second < 60
  }

  /** Days from 1970-01-01 to the date d. */
  function DaysFromCivil(d: Date): int
    requires 1 <= d.month <= 12
  {
    DaysBeforeYear(d.year) + DaysBeforeMonth(d.year, d.month) + d.day - 1 - EPOCH_DAYS
  }

  /** Seconds since the Epoch of a UTC calendar time (what `datetime.timestamp()` returns). */
  function Timestamp(dt: DateTime): int
    requires 1 <= dt.month <= 12
  {
    DaysFromCivil(Date(dt.year, dt.month, dt.day)) * SECONDS_PER_DAY
      + dt.hour * 3600 + dt.minute * 60 + dt.second
  }

  /**
   * "Seconds Since the Epoch" as section 4.16 of the Base Definitions volume of POSIX.1-2017
   * writes it, in terms of tm_year (years since 1900) and tm_yday (days since January 1),
   * with C's division, which truncates towards zero.
   */
  function PosixSecondsSinceEpoch(dt: DateTime): int
    requires 1 <= dt.month <= 12
  {
    var tmYear := dt.year - 1900;
    var tmYday := DaysBeforeMonth(dt.year, dt.month) + dt.day - 1;
    dt.second + dt.minute * 60 + dt.hour * 3600 + tmYday * 86400
      + (tmYear - 70) * 31536000 + DecimalDigits.TruncDiv(tmYear - 69, 4) * 86400
      - DecimalDigits.TruncDiv(tmYear - 1, 100) * 86400 + DecimalDigits.TruncDiv(tmYear + 299, 400) * 86400
  }

  // ---------------------------------------------------------------------------------------
  // Calendar facts

  lemma DaysBeforeYearStep(y: int)
    ensures DaysBeforeYear(y + 1) == DaysBeforeYear(y) + DaysInYear(y)
  {
    QuotientSteps(y);
    DivisibilityChain(y);
  }

  /** A multiple of 100 is a multiple of 4, and a multiple of 400 a multiple of 100. */
  lemma DivisibilityChain(y: int)
    ensures y % 100 == 0 ==> y % 4 == 0
    ensures y % 400 == 0 ==> y % 100 == 0
  {
    if y % 100 == 0 {
      var q := y / 100;
      assert y == 100 * q;
      assert y / 4 == 25 * q;
    }
    if y % 400 == 0 {
      var q := y / 400;
      assert y == 400 * q;
      assert y / 100 == 4 * q;
    }
  }

  /** Moving from y - 1 to y raises each of the leap-year quotients exactly at a multiple. */
  lemma QuotientSteps(y: int)
    ensures y / 4 == (y - 1) / 4 + (if y % 4 == 0 then 1 else 0)
    ensures y / 100 == (y - 1) / 100 + (if y % 100 == 0 then 1 else 0)
    ensures y / 400 == (y - 1) / 400 + (if y % 400 == 0 then 1 else 0)
  {
    QuotientStep(y, 4);
    QuotientStep(y, 100);
    QuotientStep(y, 400);
  }

  lemma QuotientStep(y: int, d: int)
    requires d == 4 || d == 100 || d == 400
    ensures y / d == (y - 1) / d + (if y % d == 0 then 1 else 0)
  {
    var q := (y - 1) / d;
    var r := (y - 1) % d;
    assert y - 1 == d * q + r && 0 <= r < d;
    if r == d - 1 {
      assert y == d * (q + 1);
    } else {
      assert y == d * q + (r + 1);
    }
  }

  lemma {:induction false} DaysBeforeYearMonotone(a: int, b: int)
    requires a <= b
    ensures DaysBeforeYear(a) + 365 * (b - a) <= DaysBeforeYear(b)
    decreases b - a
  {
    if a < b {
      DaysBeforeYearMonotone(a, b - 1);
      DaysBeforeYearStep(b - 1);
    }
  }

  /** The year of the n-th day is unique: years partition the days. */
  lemma YearUnique(y1: int, k1: int, y2: int, k2: int)
    requires 0 <= k1 < DaysInYear(y1) && 0 <= k2 < DaysInYear(y2)
    requires DaysBeforeYear(y1) + k1 == DaysBeforeYear(y2) + k2
    ensures y1 == y2 && k1 == k2
  {
    if y1 < y2 {
      DaysBeforeYearStep(y1);
      DaysBeforeYearMonotone(y1 + 1, y2);
    } else if y2 < y1 {
      DaysBeforeYearStep(y2);
      DaysBeforeYearMonotone(y2 + 1, y1);
    }
  }

  /** Days before the year that ends a given number of 400-, 100-, 4- and 1-year cycles. */
  lemma DaysBeforeYearCycles(a: int, b: int, c: int, e: int)
    requires 0 <= a && 0 <= b <= 3 && 0 <= c <= 24 && 0 <= e <= 3
    ensures DaysBeforeYear(400 * a + 100 * b + 4 * c + e + 1)
         == DAYS_400Y * a + DAYS_100Y * b + DAYS_4Y * c + DAYS_1Y * e
  {
    var p := 400 * a + 100 * b + 4 * c + e;
    assert p / 4 == 100 * a + 25 * b + c;
    assert p / 100 == 4 * a + b;
    assert p / 400 == a;
  }

  /** Which years of a 400-year cycle are leap years. */
  lemma LeapInCycle(a: int, b: int, c: int, e: int)
    requires 0 <= a && 0 <= b <= 3 && 0 <= c <= 24 && 0 <= e <= 3
    ensures IsLeap(400 * a + 100 * b + 4 * c + e + 1) <==> e == 3 && (c != 24 || b == 3)
  {
    if e < 3 {
      NotMultipleOf4(100 * a + 25 * b + c, e + 1);
    } else if c < 24 {
      MultipleOf4Only(4 * a + b, c + 1);
    } else if b < 3 {
      MultipleOf100Only(a, b + 1);
    } else {
      MultipleOf400(a + 1);
    }
  }

  lemma NotMultipleOf4(q: int, r: int)
    requires 1 <= r <= 3
    ensures !IsLeap(4 * q + r)
  {
    var y := 4 * q + r;
    assert y / 4 == q;
  }

  lemma MultipleOf4Only(q: int, r: int)
    requires 1 <= r <= 24
    ensures IsLeap(100 * q + 4 * r)
  {
    var y := 100 * q + 4 * r;
    assert y / 4 == 25 * q + r;
    assert y / 100 == q;
  }

  lemma MultipleOf100Only(q: int, r: int)
    requires 1 <= r <= 3
    ensures !IsLeap(400 * q + 100 * r)
  {
    var y := 400 * q + 100 * r;
    assert y / 4 == 100 * q + 25 * r;
    assert y / 100 == 4 * q + r;
    assert y / 400 == q;
  }

  lemma MultipleOf400(q: int)
    ensures IsLeap(400 * q)
  {
    var y := 400 * q;
    assert y / 4 == 100 * q;
    assert y / 100 == 4 * q;
    assert y / 400 == q;
  }

  // ---------------------------------------------------------------------------------------
  // Days to date

  /**
   * Splits a day count since 0001-01-01 into a year and a zero-based day of that year,
   * through 400-, 100-, 4- and 1-year cycles.
   */
  function YearOfOrdinal(n: int): (r: (int, int))
    requires 0 <= n
    ensures 1 <= r.0 && 0 <= r.1 < DaysInYear(r.0)
    ensures DaysBeforeYear(r.0) + r.1 == n
  {
    var a := n / DAYS_400Y;
    var r400 := n % DAYS_400Y;
    var b := if r400 / DAYS_100Y > 3 then 3 else r400 / DAYS_100Y;
    var r100 := r400 - DAYS_100Y * b;
    var c := r100 / DAYS_4Y;
    var r4 := r100 % DAYS_4Y;
    var e := if r4 / DAYS_1Y > 3 then 3 else r4 / DAYS_1Y;
    var k := r4 - DAYS_1Y * e;
    var y := 400 * a + 100 * b + 4 * c + e + 1;
    assert c <= 24;
    assert b < 3 ==> r100 < DAYS_100Y;
    DaysBeforeYearCycles(a, b, c, e);
    LeapInCycle(a, b, c, e);
    (y, k)
  }

  /** The month, from m on, in which the zero-based day k of year y falls. */
  function MonthOfDay(y: int, k: int, m: int): (r: int)
    requires 1 <= m <= 12 && DaysBeforeMonth(y, m) <= k < DaysInYear(y)
    ensures m <= r <= 12
    ensures DaysBeforeMonth(y, r) <= k < DaysBeforeMonth(y, r) + DaysInMonth(y, r)
    decreases 12 - m
  {
    if m == 12 || k < DaysBeforeMonth(y, m + 1) then m else MonthOfDay(y, k, m + 1)
  }

  lemma MonthUnique(y: int, k: int, m1: int, m2: int)
    requires 1 <= m1 <= 12 && 1 <= m2 <= 12
    requires DaysBeforeMonth(y, m1) <= k < DaysBeforeMonth(y, m1) + DaysInMonth(y, m1)
    requires DaysBeforeMonth(y, m2) <= k < DaysBeforeMonth(y, m2) + DaysInMonth(y, m2)
    ensures m1 == m2
  {
    if m1 < m2 {
      MonthsAscend(y, m1, m2);
    } else if m2 < m1 {
      MonthsAscend(y, m2, m1);
    }
  }

  lemma {:induction false} MonthsAscend(y: int, m1: int, m2: int)
    requires 1 <= m1 < m2 <= 12
    ensures DaysBeforeMonth(y, m1) + DaysInMonth(y, m1) <= DaysBeforeMonth(y, m2)
    decreases m2 - m1
  {
    if m1 + 1 < m2 {
      MonthsAscend(y, m1 + 1, m2);
    }
  }

  /** The date `days` days after 1970-01-01. */
  function CivilFromDays(days: int): (d: Date)
    requires -EPOCH_DAYS <= days
    ensures d.year >= MIN_YEAR && 1 <= d.month <= 12 && 1 <= d.day <= DaysInMonth(d.year, d.month)
    ensures DaysFromCivil(d) == days
  {
    var (y, k) := YearOfOrdinal(days + EPOCH_DAYS);
    var m := MonthOfDay(y, k, 1);
    Date(y, m, k - DaysBeforeMonth(y, m) + 1)
  }

  // ---------------------------------------------------------------------------------------
  // Timestamps

  /** `datetime.fromtimestamp(t, tz=timezone.utc)` for t within the years 1 to 9999. */
  function FromTimestamp(t: int): (dt: DateTime)
    requires MIN_TIMESTAMP <= t <= MAX_TIMESTAMP
    ensures Valid(dt) && Timestamp(dt) == t
  {
    var days := t / SECONDS_PER_DAY;
    var secs := t % SECONDS_PER_DAY;
    assert days * SECONDS_PER_DAY + secs == t;
    assert -EPOCH_DAYS <= days <= MAX_TIMESTAMP / SECONDS_PER_DAY;
    var d := CivilFromDays(days);
    YearBound(d);
    SplitSeconds(secs);
    DateTime(d.year, d.month, d.day, secs / 3600, secs % 3600 / 60, secs % 60)
  }

  /** A second of the day as hours, minutes and seconds. */
  lemma SplitSeconds(secs: int)
    requires 0 <= secs < SECONDS_PER_DAY
    ensures 0 <= secs / 3600 < 24 && 0 <= secs % 3600 / 60 < 60 && 0 <= secs % 60 < 60
    ensures secs / 3600 * 3600 + secs % 3600 / 60 * 60 + secs % 60 == secs
  {
    var h := secs / 3600;
    var r := secs % 3600;
    assert h * 3600 + r == secs;
    assert r / 60 * 60 + r % 60 == r;
    assert r % 60 == secs % 60;
  }

  lemma YearBound(d: Date)
    requires d.year >= MIN_YEAR && 1 <= d.month <= 12 && 1 <= d.day <= DaysInMonth(d.year, d.month)
    requires DaysFromCivil(d) <= MAX_TIMESTAMP / SECONDS_PER_DAY
    ensures d.year <= MAX_YEAR
  {
    if d.year > MAX_YEAR {
      DaysBeforeYearMonotone(MAX_YEAR + 1, d.year);
    }
  }

  /** Every valid calendar time lies within the timestamps FromTimestamp accepts. */
  lemma TimestampInRange(dt: DateTime)
    requires Valid(dt)
    ensures MIN_TIMESTAMP <= Timestamp(dt) <= MAX_TIMESTAMP
  {
    DaysBeforeYearMonotone(MIN_YEAR, dt.year);
    DaysBeforeYearMonotone(dt.year, MAX_YEAR);
    DaysBeforeYearStep(dt.year);
    MonthsAscendToYearEnd(dt.year, dt.month);
  }

  lemma MonthsAscendToYearEnd(y: int, m: int)
    requires 1 <= m <= 12
    ensures DaysBeforeMonth(y, m) + DaysInMonth(y, m) <= DaysInYear(y)
  {
    if m < 12 {
      MonthsAscend(y, m, 12);
    }
  }

  /** Round trip: a valid calendar time is recovered from its timestamp. */
  lemma {:induction false} FromTimestampOfTimestamp(dt: DateTime)
    requires Valid(dt)
    ensures MIN_TIMESTAMP <= Timestamp(dt) <= MAX_TIMESTAMP && FromTimestamp(Timestamp(dt)) == dt
  {
    TimestampInRange(dt);
    var t := Timestamp(dt);
    var days := DaysFromCivil(Date(dt.year, dt.month, dt.day));
    var secs := dt.hour * 3600 + dt.minute * 60 + dt.second;
    assert t / SECONDS_PER_DAY == days && t % SECONDS_PER_DAY == secs;
    assert secs / 3600 == dt.hour && secs % 3600 / 60 == dt.minute && secs % 60 == dt.second;
    var d := CivilFromDays(days);
    MonthsAscendToYearEnd(dt.year, dt.month);
    YearUnique(d.year, DaysBeforeMonth(d.year, d.month) + d.day - 1,
               dt.year, DaysBeforeMonth(dt.year, dt.month) + dt.day - 1);
    MonthUnique(dt.year, DaysBeforeMonth(dt.year, dt.month) + dt.day - 1, d.month, dt.month);
  }

  /** Distinct valid calendar times have distinct timestamps. */
  lemma TimestampInjective(dt1: DateTime, dt2: DateTime)
    requires Valid(dt1) && Valid(dt2) && Timestamp(dt1) == Timestamp(dt2)
    ensures dt1 == dt2
  {
    FromTimestampOfTimestamp(dt1);
    FromTimestampOfTimestamp(dt2);
  }

  /** From 1970 on, Timestamp agrees with the POSIX formula. */
  lemma PosixAgrees(dt: DateTime)
    requires Valid(dt) && dt.year >= 1970
    ensures Timestamp(dt) == PosixSecondsSinceEpoch(dt)
  {
    var p := dt.year - 1;
    assert p / 4 == (dt.year - 1969) / 4 + 492;
    assert p / 100 == (dt.year - 1901) / 100 + 19;
    assert p / 400 == (dt.year - 1601) / 400 + 4;
  }

  /** Before 1970 the POSIX formula is not the timestamp: at 1968-01-01 it is a day off. */
  lemma PosixDiffersBefore1970()
    ensures Timestamp(DateTime(1968, 1, 1, 0, 0, 0)) != PosixSecondsSinceEpoch(DateTime(1968, 1, 1, 0, 0, 0))
  {
    var dt := DateTime(1968, 1, 1, 0, 0, 0);
    assert Timestamp(dt) == -63158400;
    assert PosixSecondsSinceEpoch(dt) == -63072000;
  }

  /** A worked example: the timestamp 1700000000 is 2023-11-14 22:13:20 UTC. */
  lemma FromTimestampExample()
    ensures FromTimestamp(1700000000) == DateTime(2023, 11, 14, 22, 13, 20)
  {
    var dt := DateTime(2023, 11, 14, 22, 13, 20);
    assert Valid(dt);
    assert Timestamp(dt) == 1700000000;
    FromTimestampOfTimestamp(dt);
  }
}
