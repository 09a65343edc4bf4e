/**
  The part of Go's time package that both indexers rely on.

  A `Time` is the number of nanoseconds since Monday, 1 January of year 1, 00:00 UTC, the zero time
  of the package. The calendar is the proleptic Gregorian one, before and after that instant.
 */
module GoTime {
  import opened Common

  type Time = int

  const SECOND: int := 1_000_000_000
  const MINUTE: int := 60_000_000_000
  const HOUR: int := 3_600_000_000_000
  const DAY: int := 86_400_000_000_000

  /** Seconds from the zero time to 1 January 1970. */
  const UNIX_EPOCH: int := 62_135_596_800

  const DAYS_PER_400_YEARS: int := 146_097
  const DAYS_PER_100_YEARS: int := 36_524
  const DAYS_PER_4_YEARS: int := 1_461

  /** `time.Unix(sec, 0)`. */
  function FromUnix(sec: int): Time {
    (sec + UNIX_EPOCH) * SECOND
  }

  /** `t.Unix()`: whole seconds, rounded down. */
  function ToUnix(t: Time): int {
    t / SECOND - UNIX_EPOCH
  }

  /** `t.Truncate(d)` for a positive `d`: rounds down to a multiple of `d` counted from the zero time. */
  function Truncate(t: Time, d: int): Time
    requires d > 0
  {
    t - t % d
  }

  // ---- clock fields ---------------------------------------------------------------------------

  function DayNumber(t: Time): int { t / DAY }

  function Hour(t: Time): int { t % DAY / HOUR }

  function Minute(t: Time): int { t % HOUR / MINUTE }

  function Second(t: Time): int { t % MINUTE / SECOND }

  /** Sunday is 0. The zero time is a Monday. */
  function Weekday(t: Time): int { (DayNumber(t) + 1) % 7 }

  // ---- calendar fields ------------------------------------------------------------------------

  predicate IsLeap(year: int) {
    year % 4 == 0 && (year % 100 != 0 || year % 400 == 0)
  }

  function YearLength(year: int): int {
    if IsLeap(year) then 366 else 365
  }

  /** Days from the zero time to 1 January of `year`. */
  function DaysBeforeYear(year: int): int {
    var p := year - 1;
    365 * p + p / 4 - p / 100 + p / 400
  }

  /** The year, found by cutting off 400-, 100-, 4- and 1-year cycles in turn. */
  function YearOfDay(day: int): int {
    var d400 := day % DAYS_PER_400_YEARS;
    var c := if d400 / DAYS_PER_100_YEARS > 3 then 3 else d400 / DAYS_PER_100_YEARS;
    var d100 := d400 - DAYS_PER_100_YEARS * c;
    var q := d100 / DAYS_PER_4_YEARS;
    var d4 := d100 - DAYS_PER_4_YEARS * q;
    var s := if d4 / 365 > 3 then 3 else d4 / 365;
    400 * (day / DAYS_PER_400_YEARS) + 100 * c + 4 * q + s + 1
  }

  /** Days of the year before the first of `month`; month 13 gives the length of the year. */
  function DaysBeforeMonth(month: int, leap: bool): int
    requires 1 <= month <= 13
  {
    var common := [0, 31, 59, 90, 120, 151, 181, 212, 243, 273, 304, 334, 365][month - 1];
    if leap && month >= 3 then common + 1 else common
  }

  function MonthLength(month: int, leap: bool): int
    requires 1 <= month <= 12
  {
    DaysBeforeMonth(month + 1, leap) - DaysBeforeMonth(month, leap)
  }

  /** The month whose first day is the latest one not after day `yearDay` (0-based) of the year. */
  function MonthOfYearDay(yearDay: int, leap: bool, month: int): (r: int)
    requires 1 <= month <= 12
    requires 0 <= yearDay < DaysBeforeMonth(month + 1, leap)
    ensures 1 <= r <= month
    ensures DaysBeforeMonth(r, leap) <= yearDay < DaysBeforeMonth(r + 1, leap)
    decreases month
  {
    if month == 1 || DaysBeforeMonth(month, leap) <= yearDay then month
    else MonthOfYearDay(yearDay, leap, month - 1)
  }

  function Year(t: Time): int { YearOfDay(DayNumber(t)) }

  function YearDay(t: Time): (r: int)
    ensures 0 <= r < YearLength(Year(t))
  {
    YearOfDayBounds(DayNumber(t));
    DayNumber(t) - DaysBeforeYear(Year(t))
  }

  function Month(t: Time): (r: int)
    ensures 1 <= r <= 12
  {
    MonthOfYearDay(YearDay(t), IsLeap(Year(t)), 12)
  }

  function DayOfMonth(t: Time): (r: int)
    ensures 1 <= r <= MonthLength(Month(t), IsLeap(Year(t)))
  {
    YearDay(t) - DaysBeforeMonth(Month(t), IsLeap(Year(t))) + 1
  }

  /** Number of the day `time.Date` denotes; a day outside its month carries into its neighbours. */
  function DateDay(year: int, month: int, day: int): int
    requires 1 <= month <= 12
  {
    DaysBeforeYear(year) + DaysBeforeMonth(month, IsLeap(year)) + day - 1
  }

  /** `time.Date(year, month, day, hour, minute, second, nanosecond, time.UTC)`. */
  function Date(year: int, month: int, day: int, hour: int, minute: int, second: int, nano: int): Time
    requires 1 <= month <= 12
  {
    DateDay(year, month, day) * DAY + hour * HOUR + minute * MINUTE + second * SECOND + nano
  }

  /** `t.AddDate(0, 0, days)`: re-assembles the date from its fields with the day shifted. */
  function AddDays(t: Time, days: int): Time {
    Date(Year(t), Month(t), DayOfMonth(t) + days, Hour(t), Minute(t), Second(t), t % SECOND)
  }

  // ---- the calendar is consistent -------------------------------------------------------------

  lemma YearStep(year: int)
    ensures DaysBeforeYear(year + 1) == DaysBeforeYear(year) + YearLength(year)
  {
    var p := year - 1;
    StepDiv(p, 4);
    StepDiv(p, 100);
    StepDiv(p, 400);
  }

  lemma StepDiv(p: int, k: int)
    requires k > 1
    ensures (p + 1) / k == p / k + if (p + 1) % k == 0 then 1 else 0
  {
    var q, r := p / k, p % k;
    assert p == k * q + r;
    if r + 1 == k {
      DivModUnique(p + 1, k, q + 1, 0);
    } else {
      DivModUnique(p + 1, k, q, r + 1);
    }
  }

  lemma {:induction false} YearsMonotone(a: int, b: int)
    requires a <= b
    ensures DaysBeforeYear(a) + 365 * (b - a) <= DaysBeforeYear(b)
    decreases b - a
  {
    if a < b {
      YearsMonotone(a, b - 1);
      YearStep(b - 1);
    }
  }

  /** The cycle arithmetic finds the year that contains the day. */
  lemma YearOfDayBounds(day: int)
    ensures DaysBeforeYear(YearOfDay(day)) <= day < DaysBeforeYear(YearOfDay(day) + 1)
    ensures DaysBeforeYear(YearOfDay(day) + 1) == DaysBeforeYear(YearOfDay(day)) + YearLength(YearOfDay(day))
  {
    var n := day / DAYS_PER_400_YEARS;
    var d400 := day % DAYS_PER_400_YEARS;
    var c := if d400 / DAYS_PER_100_YEARS > 3 then 3 else d400 / DAYS_PER_100_YEARS;
    var d100 := d400 - DAYS_PER_100_YEARS * c;
    var q := d100 / DAYS_PER_4_YEARS;
    var d4 := d100 - DAYS_PER_4_YEARS * q;
    var s := if d4 / 365 > 3 then 3 else d4 / 365;
    var year := YearOfDay(day);
    assert year == 400 * n + 100 * c + 4 * q + s + 1;
    DaysBeforeFields(n, c, q, s);
    YearStep(year);
    LeapFields(n, c, q, s);
  }

  lemma DaysBeforeFields(n: int, c: int, q: int, s: int)
    requires 0 <= c <= 3 && 0 <= q <= 24 && 0 <= s <= 3
    ensures DaysBeforeYear(400 * n + 100 * c + 4 * q + s + 1)
         == DAYS_PER_400_YEARS * n + DAYS_PER_100_YEARS * c + DAYS_PER_4_YEARS * q + 365 * s
  {
    var p := 400 * n + 100 * c + 4 * q + s;
    DivModUnique(p, 4, 100 * n + 25 * c + q, s);
    DivModUnique(p, 100, 4 * n + c, 4 * q + s);
    DivModUnique(p, 400, n, 100 * c + 4 * q + s);
  }

  lemma LeapFields(n: int, c: int, q: int, s: int)
    requires 0 <= c <= 3 && 0 <= q <= 24 && 0 <= s <= 3
    ensures IsLeap(400 * n + 100 * c + 4 * q + s + 1) <==> s == 3 && (q != 24 || c == 3)
  {
    var year := 400 * n + 100 * c + 4 * q + s + 1;
    if s == 3 {
      DivModUnique(year, 4, 100 * n + 25 * c + q + 1, 0);
      if q == 24 {
        DivModUnique(year, 100, 4 * n + c + 1, 0);
        if c == 3 {
          DivModUnique(year, 400, n + 1, 0);
        } else {
          DivModUnique(year, 400, n, 100 * c + 100);
        }
      } else {
        DivModUnique(year, 100, 4 * n + c, 4 * q + 4);
      }
    } else {
      DivModUnique(year, 4, 100 * n + 25 * c + q, s + 1);
    }
  }

  /** Reading the fields of a time and re-assembling them gives the time back. */
  lemma FieldsRoundTrip(t: Time)
    ensures Date(Year(t), Month(t), DayOfMonth(t), Hour(t), Minute(t), Second(t), t % SECOND) == t
    ensures DateDay(Year(t), Month(t), DayOfMonth(t)) == DayNumber(t)
  {
    ClockFields(t);
  }

  /** The clock fields are digits of the time in the mixed radix 24, 60, 60, 10^9. */
  lemma ClockFields(t: Time)
    ensures t == DayNumber(t) * DAY + Hour(t) * HOUR + Minute(t) * MINUTE + Second(t) * SECOND + t % SECOND
    ensures 0 <= Hour(t) < 24 && 0 <= Minute(t) < 60 && 0 <= Second(t) < 60
  {
    NestedMod(t, HOUR, 24);
    NestedMod(t, MINUTE, 60);
    NestedMod(t, SECOND, 60);
  }

  lemma NestedMod(t: int, k: int, m: int)
    requires k > 0 && m > 0
    ensures k * m > 0 && t % (k * m) % k == t % k
  {
    var big := k * m;
    assert big > 0;
    var q, r := t / big, t % big;
    var q', r' := r / k, r % k;
    assert t == big * q + r && r == k * q' + r';
    assert big * q == k * (m * q);
    assert t == k * (m * q + q') + r' by {
      assert k * (m * q + q') == k * (m * q) + k * q';
    }
    DivModUnique(t, k, m * q + q', r');
  }

  lemma YearUnique(day: int, year: int)
    requires DaysBeforeYear(year) <= day < DaysBeforeYear(year + 1)
    ensures year == YearOfDay(day)
  {
    var y := YearOfDay(day);
    YearOfDayBounds(day);
    if year < y {
      YearsMonotone(year + 1, y);
    } else if y < year {
      YearsMonotone(y + 1, year);
    }
  }

  /** The fields are the only ones: a valid date determines its day, month and year. */
  lemma FieldsUnique(t: Time, year: int, month: int, day: int)
    requires 1 <= month <= 12 && 1 <= day <= MonthLength(month, IsLeap(year))
    requires DateDay(year, month, day) == DayNumber(t)
    ensures year == Year(t) && month == Month(t) && day == DayOfMonth(t)
  {
    var leap := IsLeap(year);
    var yearDay := DaysBeforeMonth(month, leap) + day - 1;
    assert 0 <= yearDay < YearLength(year) by {
      MonthsMonotone(1, month, leap);
      MonthsMonotone(month + 1, 13, leap);
    }
    YearStep(year);
    YearUnique(DayNumber(t), year);
    MonthUnique(leap, yearDay, month, Month(t));
  }

  lemma MonthUnique(leap: bool, yearDay: int, m: int, n: int)
    requires 1 <= m <= 12 && DaysBeforeMonth(m, leap) <= yearDay < DaysBeforeMonth(m + 1, leap)
    requires 1 <= n <= 12 && DaysBeforeMonth(n, leap) <= yearDay < DaysBeforeMonth(n + 1, leap)
    ensures m == n
  {
    if m < n {
      MonthsMonotone(m + 1, n, leap);
    } else if n < m {
      MonthsMonotone(n + 1, m, leap);
    }
  }

  lemma MonthsMonotone(m: int, n: int, leap: bool)
    requires 1 <= m <= n <= 13
    ensures DaysBeforeMonth(m, leap) <= DaysBeforeMonth(n, leap)
  {
  }

  /** Later times are not in earlier years. */
  lemma YearMonotone(s: Time, t: Time)
    requires s <= t
    ensures Year(s) <= Year(t)
  {
    hide YearOfDay, DaysBeforeYear;
    YearOfDayBounds(DayNumber(s));
    YearOfDayBounds(DayNumber(t));
    if Year(t) < Year(s) {
      YearsMonotone(Year(t) + 1, Year(s));
    }
  }
}
