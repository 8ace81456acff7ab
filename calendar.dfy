/**
 * The proleptic Gregorian calendar in UTC, counted the way Python's `datetime`
 * counts it: day 1 is 0001-01-01, 1970-01-01 is day 719163, and a UTC instant's
 * `timestamp()` is its distance from that day in seconds.
 */
module Calendar {

  /** The calendar fields `strptime("%Y%m%d%H%M%S")` fills in. */
  datatype DateTime = DateTime(year: int, month: int, day: int, hour: int, minute: int, second: int)

  predicate IsLeap(y: int) { y % 4 == 0 && (y % 100 != 0 || y % 400 == 0) }

  function DaysInYear(y: int): (n: nat)
    ensures n == 365 || (n == 366 && IsLeap(y))
  {
    if IsLeap(y) then 366 else 365
  }

  function DaysInMonth(y: int, m: int): (n: nat)
    requires 1 <= m <= 12
    ensures 28 <= n <= 31 && (n == 29 <==> m == 2 && IsLeap(y))
  {
    if m == 2 then (if IsLeap(y) then 29 else 28)
    else if m == 4 || m == 6 || m == 9 || m == 11 then 30
    else 31
  }

  /** Days of year `y` that come before the first of month `m`. */
  function DaysBeforeMonth(y: int, m: int): nat
    requires 1 <= m <= 12
  {
    [0, 31, 59, 90, 120, 151, 181, 212, 243, 273, 304, 334][m - 1]
      + (if m > 2 && IsLeap(y) then 1 else 0)
  }

  /** Leap years among years 1..p, by the rule's closed formula. */
  function LeapYearsThrough(p: nat): nat
  {
    p / 4 - p / 100 + p / 400
  }

  /** Days from 0001-01-01 to the first of January of year `y`. */
  function DaysBeforeYear(y: int): nat
    requires y >= 1
  {
    (y - 1) * 365 + LeapYearsThrough(y - 1)
  }

  /** The same count summed year by year, the reference the closed formula is checked against. */
  function YearStart(y: int): (n: nat)
    requires y >= 1
  {
    if y == 1 then 0 else YearStart(y - 1) + DaysInYear(y - 1)
  }

  /** The date's day number, 0001-01-01 being day 1 (Python's `date.toordinal`). */
  function Ordinal(y: int, m: int, d: int): int
    requires y >= 1 && 1 <= m <= 12
  {
    DaysBeforeYear(y) + DaysBeforeMonth(y, m) + d
  }

  /** `Ordinal(1970, 1, 1)`. */
  const EpochOrdinal: int := 719163

  /** A time of day without leap seconds. */
  predicate ValidTime(t: DateTime) {
    0 <= t.hour <= 23 && 0 <= t.minute <= 59 && 0 <= t.second <= 59
  }

  /**
   * The instants `datetime` accepts: year at least 1, a month, a day of that month,
   * and a valid time of day.
   */
  predicate Valid(t: DateTime) {
    t.year >= 1 && 1 <= t.month <= 12 && 1 <= t.day <= DaysInMonth(t.year, t.month) && ValidTime(t)
  }

  function SecondOfDay(t: DateTime): (s: int)
    requires ValidTime(t)
    ensures 0 <= s < 86400
  {
    t.hour * 3600 + t.minute * 60 + t.second
  }

  /** Seconds from 1970-01-01T00:00:00Z to the instant `t`, read as UTC. */
  function EpochSeconds(t: DateTime): int
    requires Valid(t)
  {
    (Ordinal(t.year, t.month, t.day) - EpochOrdinal) * 86400 + SecondOfDay(t)
  }

  /** Lexicographic order on the fields, most significant first. */
  predicate Before(a: DateTime, b: DateTime) {
    a.year < b.year || (a.year == b.year &&
    (a.month < b.month || (a.month == b.month &&
    (a.day < b.day || (a.day == b.day &&
    (a.hour < b.hour || (a.hour == b.hour &&
    (a.minute < b.minute || (a.minute == b.minute && a.second < b.second)))))))))
  }

  // ---------------------------------------------------------------------------
  // Counting days

  /** The closed formula counts exactly the days of the years before `y`. */
  lemma {:induction false} DaysBeforeYearCounts(y: int)
    requires y >= 1
    ensures DaysBeforeYear(y) == YearStart(y)
  {
    if y > 1 {
      DaysBeforeYearCounts(y - 1);
      LeapYearsStep(y - 2);
    }
  }

  /** Consecutive years start a year's length apart. */
  lemma DaysBeforeYearStep(y: int)
    requires y >= 1
    ensures DaysBeforeYear(y + 1) == DaysBeforeYear(y) + DaysInYear(y)
  {
    LeapYearsStep(y - 1);
  }

  lemma LeapYearsStep(p: nat)
    ensures LeapYearsThrough(p + 1) == LeapYearsThrough(p) + if IsLeap(p + 1) then 1 else 0
  {
    var q := p + 1;
    assert q / 4 - p / 4 == if q % 4 == 0 then 1 else 0;
    assert q / 100 - p / 100 == if q % 100 == 0 then 1 else 0;
    assert q / 400 - p / 400 == if q % 400 == 0 then 1 else 0;
  }

  lemma {:induction false} YearStartMonotone(y: int, z: int)
    requires 1 <= y <= z
    ensures YearStart(y) + (z - y) * 365 <= YearStart(z)
  {
    if y < z {
      YearStartMonotone(y, z - 1);
    }
  }

  lemma {:induction false} DaysBeforeYearMonotone(y: int, z: int)
    requires 1 <= y <= z
    ensures DaysBeforeYear(y) + (z - y) * 365 <= DaysBeforeYear(z)
  {
    if y < z {
      DaysBeforeYearMonotone(y, z - 1);
      DaysBeforeYearStep(z - 1);
    }
  }

  lemma DaysBeforeMonthStep(y: int, m: int)
    requires 1 <= m <= 12
    ensures DaysBeforeMonth(y, m) + DaysInMonth(y, m)
      == if m < 12 then DaysBeforeMonth(y, m + 1) else DaysInYear(y)
  {
  }

  lemma {:induction false} DaysBeforeMonthMonotone(y: int, m: int, n: int)
    requires 1 <= m <= n <= 12
    ensures DaysBeforeMonth(y, m) + (n - m) * 28 <= DaysBeforeMonth(y, n)
  {
    if m < n {
      DaysBeforeMonthMonotone(y, m, n - 1);
      DaysBeforeMonthStep(y, n - 1);
    }
  }

  /** A valid date's position inside its year: between 1 and the year's length. */
  lemma DayOfYearBounds(t: DateTime)
    requires Valid(t)
    ensures 1 <= DaysBeforeMonth(t.year, t.month) + t.day <= DaysInYear(t.year)
  {
    DaysBeforeMonthStep(t.year, t.month);
    DaysBeforeMonthMonotone(t.year, t.month, 12);
    DaysBeforeMonthStep(t.year, 12);
  }

  /** Evaluates `EpochSeconds` from its day count and second of day (a helper for concrete instants). */
  lemma EpochSecondsFrom(t: DateTime, days: int, sod: int)
    requires Valid(t) && Ordinal(t.year, t.month, t.day) - EpochOrdinal == days && SecondOfDay(t) == sod
    ensures EpochSeconds(t) == days * 86400 + sod
  {
  }

  /** 1970-01-01T00:00:00Z is epoch second 0. */
  lemma EpochStartIsZero()
    ensures EpochSeconds(DateTime(1970, 1, 1, 0, 0, 0)) == 0
  {
    EpochSecondsFrom(DateTime(1970, 1, 1, 0, 0, 0), 0, 0);
  }

  /** 2023-06-15T14:30:00Z is epoch second 1686839400. */
  lemma EpochSecondsExample()
    ensures EpochSeconds(DateTime(2023, 6, 15, 14, 30, 0)) == 1686839400
  {
    EpochSecondsFrom(DateTime(2023, 6, 15, 14, 30, 0), 19523, 52200);
  }

  /** 2300-01-01T00:00:00Z is epoch second 10413792000. */
  lemma FarFutureEpochSeconds()
    ensures EpochSeconds(DateTime(2300, 1, 1, 0, 0, 0)) == 10413792000
  {
    EpochSecondsFrom(DateTime(2300, 1, 1, 0, 0, 0), 120530, 0);
  }

  // ---------------------------------------------------------------------------
  // Monotonicity

  /** Later calendar fields always mean a later instant. */
  lemma EpochSecondsMonotone(a: DateTime, b: DateTime)
    requires Valid(a) && Valid(b) && Before(a, b)
    ensures EpochSeconds(a) < EpochSeconds(b)
  {
    var oa, ob := Ordinal(a.year, a.month, a.day), Ordinal(b.year, b.month, b.day);
    DayOfYearBounds(a);
    DayOfYearBounds(b);
    if a.year < b.year {
      DaysBeforeYearStep(a.year);
      DaysBeforeYearMonotone(a.year + 1, b.year);
      assert oa < ob;
    } else if a.month < b.month {
      DaysBeforeMonthStep(a.year, a.month);
      DaysBeforeMonthMonotone(a.year, a.month + 1, b.month);
      assert oa < ob;
    } else if a.day < b.day {
      assert oa < ob;
    } else {
      assert oa == ob;
    }
  }

  /** Epoch seconds order valid instants exactly as their fields do. */
  lemma EpochSecondsOrder(a: DateTime, b: DateTime)
    requires Valid(a) && Valid(b)
    ensures Before(a, b) <==> EpochSeconds(a) < EpochSeconds(b)
    ensures a == b <==> EpochSeconds(a) == EpochSeconds(b)
  {
    if Before(a, b) {
      EpochSecondsMonotone(a, b);
    } else if Before(b, a) {
      EpochSecondsMonotone(b, a);
    } else {
      assert a == b;
    }
  }

  // ---------------------------------------------------------------------------
  // Back from epoch seconds to calendar fields

  /** The year whose days hold day number `n`, searching upward from year `y`. */
  function FindYear(n: int, y: int): (r: int)
    requires y >= 1 && YearStart(y) < n
    ensures r >= y && YearStart(r) < n <= YearStart(r) + DaysInYear(r)
    decreases n - YearStart(y)
  {
    if n <= YearStart(y + 1) then y else FindYear(n, y + 1)
  }

  /** The month of year `y` holding day `doy` of that year, searching upward from month `m`. */
  function FindMonth(y: int, doy: int, m: int): (r: int)
    requires 1 <= m <= 12 && DaysBeforeMonth(y, m) < doy <= DaysInYear(y)
    ensures m <= r <= 12 && DaysBeforeMonth(y, r) < doy <= DaysBeforeMonth(y, r) + DaysInMonth(y, r)
    decreases 12 - m
  {
    DaysBeforeMonthStep(y, m);
    if m == 12 || doy <= DaysBeforeMonth(y, m + 1) then m else FindMonth(y, doy, m + 1)
  }

  /** Seconds since the epoch of 0001-01-01T00:00:00Z, the earliest instant `datetime` has. */
  const MinEpochSeconds: int := -62135596800

  /** The inverse of `EpochSeconds`: the UTC calendar fields of an instant, with no upper bound on the year. */
  function FromEpochSeconds(secs: int): (t: DateTime)
    requires secs >= MinEpochSeconds
    ensures Valid(t)
  {
    var n := secs / 86400 + EpochOrdinal;
    var tod := secs % 86400;
    var y := FindYear(n, 1);
    var doy := n - YearStart(y);
    var m := FindMonth(y, doy, 1);
    DateTime(y, m, doy - DaysBeforeMonth(y, m), tod / 3600, tod % 3600 / 60, tod % 60)
  }

  lemma {:induction false} FindYearOf(n: int, y: int, target: int)
    requires 1 <= y <= target
    requires YearStart(target) < n <= YearStart(target) + DaysInYear(target)
    ensures YearStart(y) < n && FindYear(n, y) == target
    decreases target - y
  {
    YearStartMonotone(y, target);
    if y < target {
      YearStartMonotone(y + 1, target);
      FindYearOf(n, y + 1, target);
    }
  }

  lemma {:induction false} FindMonthOf(y: int, doy: int, m: int, target: int)
    requires 1 <= m <= target <= 12
    requires DaysBeforeMonth(y, target) < doy <= DaysBeforeMonth(y, target) + DaysInMonth(y, target)
    requires doy <= DaysInYear(y)
    ensures DaysBeforeMonth(y, m) < doy && FindMonth(y, doy, m) == target
    decreases target - m
  {
    DaysBeforeMonthMonotone(y, m, target);
    if m < target {
      DaysBeforeMonthStep(y, m);
      DaysBeforeMonthMonotone(y, m + 1, target);
      FindMonthOf(y, doy, m + 1, target);
    }
  }

  lemma SplitSeconds(days: int, tod: int)
    requires 0 <= tod < 86400
    ensures (days * 86400 + tod) / 86400 == days
    ensures (days * 86400 + tod) % 86400 == tod
  {
  }

  lemma SplitSecondOfDay(t: DateTime)
    requires Valid(t)
    ensures SecondOfDay(t) / 3600 == t.hour
    ensures SecondOfDay(t) % 3600 / 60 == t.minute
    ensures SecondOfDay(t) % 60 == t.second
  {
  }

  /** Converting a valid instant to epoch seconds and back gives the same calendar fields. */
  lemma EpochSecondsRoundTrip(t: DateTime)
    requires Valid(t)
    ensures EpochSeconds(t) >= MinEpochSeconds
    ensures FromEpochSeconds(EpochSeconds(t)) == t
  {
    var ord := Ordinal(t.year, t.month, t.day);
    DayOfYearBounds(t);
    DaysBeforeYearCounts(t.year);
    SplitSeconds(ord - EpochOrdinal, SecondOfDay(t));
    SplitSecondOfDay(t);
    FindYearOf(ord, 1, t.year);
    FindMonthOf(t.year, ord - YearStart(t.year), 1, t.month);
  }
}
