/**
  The eight candle intervals and the two functions that align a time to one of them: the
  truncating one of the rebuilt indexer and the calendar-field one of the older indexer.
 */
module Intervals {
  import opened Common
  import opened GoTime

  datatype Interval = M1 | M5 | M15 | M30 | H1 | H4 | D1 | W1

  /** The list `upsertKlines` walks through, in its order. */
  const ALL_INTERVALS: seq<Interval> := [M1, M5, M15, M30, H1, H4, D1, W1]

  /** Length of a bucket. */
  function Span(i: Interval): (d: int)
    ensures d > 0 && d % MINUTE == 0
  {
    match i
    case M1 => MINUTE
    case M5 => 5 * MINUTE
    case M15 => 15 * MINUTE
    case M30 => 30 * MINUTE
    case H1 => HOUR
    case H4 => 4 * HOUR
    case D1 => DAY
    case W1 => 7 * DAY
  }

  function DayStart(t: Time): Time {
    Date(Year(t), Month(t), DayOfMonth(t), 0, 0, 0, 0)
  }

  /** Monday is 1 and Sunday is 7. */
  function IsoWeekday(t: Time): int {
    if Weekday(t) == 0 then 7 else Weekday(t)
  }

  /** `alignTime`. */
  function AlignTime(t: Time, i: Interval): Time {
    match i
    case M1 => Truncate(t, MINUTE)
    case M5 => Truncate(t, 5 * MINUTE)
    case M15 => Truncate(t, 15 * MINUTE)
    case M30 => Truncate(t, 30 * MINUTE)
    case H1 => Truncate(t, HOUR)
    case H4 => Truncate(t, 4 * HOUR)
    case D1 => DayStart(t)
    case W1 => AddDays(DayStart(t), -(IsoWeekday(DayStart(t)) - 1))
  }

  /** `alignTimeToInterval` on a UTC time. The week branch hands `time.Date` a day that may be zero or negative. */
  function AlignTimeToInterval(t: Time, i: Interval): Time {
    match i
    case M1 => Date(Year(t), Month(t), DayOfMonth(t), Hour(t), Minute(t), 0, 0)
    case M5 => Date(Year(t), Month(t), DayOfMonth(t), Hour(t), Minute(t) / 5 * 5, 0, 0)
    case M15 => Date(Year(t), Month(t), DayOfMonth(t), Hour(t), Minute(t) / 15 * 15, 0, 0)
    case M30 => Date(Year(t), Month(t), DayOfMonth(t), Hour(t), Minute(t) / 30 * 30, 0, 0)
    case H1 => Date(Year(t), Month(t), DayOfMonth(t), Hour(t), 0, 0, 0)
    case H4 => Date(Year(t), Month(t), DayOfMonth(t), Hour(t) / 4 * 4, 0, 0, 0)
    case D1 => DayStart(t)
    case W1 => Date(Year(t), Month(t), DayOfMonth(t) - (IsoWeekday(t) - 1), 0, 0, 0, 0)
  }

  // ---- both are the same rounding -------------------------------------------------------------

  lemma DayStartIsFloor(t: Time)
    ensures DayStart(t) == t - t % DAY == DayNumber(t) * DAY
  {
    FieldsRoundTrip(t);
  }

  /** The Monday on or before a day is the last multiple of seven days. */
  lemma MondayIsFloor(t: Time)
    ensures (DayNumber(t) - (IsoWeekday(t) - 1)) * DAY == t - t % (7 * DAY)
  {
    NestedMod(t, DAY, 7);
    var n := DayNumber(t);
    assert t == DAY * n + t % DAY;
    var w := n % 7;
    assert IsoWeekday(t) - 1 == w by {
      if w == 6 {
        DivModUnique(n + 1, 7, n / 7 + 1, 0);
      } else {
        DivModUnique(n + 1, 7, n / 7, w + 1);
      }
    }
    DivModUnique(t, 7 * DAY, n / 7, w * DAY + t % DAY);
  }

  lemma AddDaysToMidnight(day: int, shift: int)
    ensures AddDays(day * DAY, shift) == (day + shift) * DAY
  {
    var t := day * DAY;
    FieldsRoundTrip(t);
    DivModUnique(t, DAY, day, 0);
    NestedMod(t, HOUR, 24);
    NestedMod(t, MINUTE, 1440);
    NestedMod(t, SECOND, 86400);
  }

  /** The truncating version rounds down to a multiple of the bucket length, for days and weeks too. */
  lemma AlignIsFloor(t: Time, i: Interval)
    ensures AlignTime(t, i) == t - t % Span(i)
  {
    match i
    case D1 => DayStartIsFloor(t);
    case W1 => WeekIsFloor(t);
    case _ =>
  }

  lemma WeekIsFloor(t: Time)
    ensures AlignTime(t, W1) == t - t % (7 * DAY)
  {
    hide Date, AddDays, DayStart;
    DayStartIsFloor(t);
    var day := DayNumber(t);
    DivModUnique(day * DAY, DAY, day, 0);
    AddDaysToMidnight(day, -(IsoWeekday(t) - 1));
    MondayIsFloor(t);
  }

  /** A field in units of `small`, rounded down to a multiple of `k` units, truncates to `k * small`. */
  lemma FieldFloor(r: int, small: int, k: int)
    requires small > 0 && k > 0
    ensures small * k > 0 && r / small / k * k * small == r - r % (small * k)
  {
    var b, q := small * k, r / small;
    var low := small * (q % k) + r % small;
    Multiple(small, k);
    assert r == small * q + r % small && q == k * (q / k) + q % k;
    assert r == b * (q / k) + low by {
      Associate(small, k, q / k);
    }
    assert 0 <= low < b by {
      ScaledRemainder(small, q % k, k);
    }
    DivModUnique(r, b, q / k, low);
    Associate(small, k, q / k);
  }

  lemma Associate(a: int, b: int, c: int)
    ensures a * (b * c) == a * b * c == c * b * a
  {
  }

  lemma ScaledRemainder(small: int, x: int, k: int)
    requires small > 0 && 0 <= x < k
    ensures 0 <= small * x <= small * k - small
  {
    Multiple(small, k - x);
    assert small * (k - x) == small * k - small * x;
  }

  lemma CalendarIsFloor(t: Time, i: Interval)
    ensures AlignTimeToInterval(t, i) == t - t % Span(i)
  {
    FieldsRoundTrip(t);
    ClockFields(t);
    match i
    case M1 => MinutesFloor(t, 1);
    case M5 => MinutesFloor(t, 5);
    case M15 => MinutesFloor(t, 15);
    case M30 => MinutesFloor(t, 30);
    case H1 => HoursFloor(t, 1);
    case H4 => HoursFloor(t, 4);
    case D1 => DayStartIsFloor(t);
    case W1 => MondayIsFloor(t);
  }

  lemma MinutesFloor(t: Time, k: int)
    requires k == 1 || k == 5 || k == 15 || k == 30
    ensures DayNumber(t) * DAY + Hour(t) * HOUR + Minute(t) / k * k * MINUTE == t - t % (k * MINUTE)
  {
    NestedMod(t, HOUR, 24);
    NestedMod(t, MINUTE * k, 60 / k);
    FieldFloor(t % HOUR, MINUTE, k);
  }

  lemma HoursFloor(t: Time, k: int)
    requires k == 1 || k == 4
    ensures DayNumber(t) * DAY + Hour(t) / k * k * HOUR == t - t % (k * HOUR)
  {
    NestedMod(t, HOUR * k, 24 / k);
    FieldFloor(t % DAY, HOUR, k);
  }

  /** Main result: the two alignment functions agree at every UTC time and interval. */
  lemma AlignmentsAgree(t: Time, i: Interval)
    ensures AlignTimeToInterval(t, i) == AlignTime(t, i)
  {
    AlignIsFloor(t, i);
    CalendarIsFloor(t, i);
  }

  // ---- what a bucket is -----------------------------------------------------------------------

  predicate IsBucketStart(b: Time, i: Interval) {
    b % Span(i) == 0
  }

  /** Aligned times are exactly the greatest bucket start not after the time. */
  lemma GreatestBucketStart(t: Time, i: Interval, b: Time)
    ensures b == AlignTime(t, i) <==> IsBucketStart(b, i) && b <= t < b + Span(i)
  {
    AlignIsFloor(t, i);
    FloorIsGreatest(t, Span(i), b);
  }

  lemma FloorIsGreatest(t: int, d: int, b: int)
    requires d > 0
    ensures b == t - t % d <==> b % d == 0 && b <= t < b + d
  {
    DivModUnique(t - t % d, d, t / d, 0);
    if b % d == 0 && b <= t < b + d {
      DivModUnique(t, d, b / d, t - b);
    }
  }

  lemma AlignIdempotent(t: Time, i: Interval)
    ensures AlignTime(AlignTime(t, i), i) == AlignTime(t, i)
  {
    var b := AlignTime(t, i);
    GreatestBucketStart(t, i, b);
    GreatestBucketStart(b, i, b);
  }

  lemma AlignMonotone(s: Time, t: Time, i: Interval)
    requires s <= t
    ensures AlignTime(s, i) <= AlignTime(t, i)
  {
    var a, b := AlignTime(s, i), AlignTime(t, i);
    GreatestBucketStart(s, i, a);
    GreatestBucketStart(t, i, b);
    StepsApart(a, b, Span(i));
  }

  /** Two multiples of `d` that differ are at least `d` apart. */
  lemma StepsApart(a: int, b: int, d: int)
    requires d > 0 && a % d == 0 && b % d == 0
    ensures a < b ==> a + d <= b
    ensures b < a ==> b + d <= a
  {
    assert a == d * (a / d) && b == d * (b / d);
    if a / d < b / d {
      Multiple(d, b / d - a / d);
    } else if b / d < a / d {
      Multiple(d, a / d - b / d);
    }
  }

  // ---- intervals nest -------------------------------------------------------------------------

  /** Every bucket of `fine` lies inside one bucket of `coarse`. */
  predicate Nests(fine: Interval, coarse: Interval) {
    Span(coarse) % Span(fine) == 0
  }

  /** The eight intervals form one chain: 1m, 5m, 15m, 30m, 1h, 4h, 1d, 1w. */
  lemma {:induction false} IntervalsFormAChain(j: nat, k: nat)
    requires j <= k < |ALL_INTERVALS|
    ensures Nests(ALL_INTERVALS[j], ALL_INTERVALS[k])
  {
    if j < k {
      IntervalsFormAChain(j, k - 1);
      var d, n := Span(ALL_INTERVALS[k - 1]), Span(ALL_INTERVALS[k]);
      assert n % d == 0 by {
        NextInterval(ALL_INTERVALS[k - 1], ALL_INTERVALS[k]);
      }
      CoarseIsFine(n, Span(ALL_INTERVALS[j]), d);
    }
  }

  lemma NextInterval(fine: Interval, coarse: Interval)
    requires (fine, coarse) in [(M1, M5), (M5, M15), (M15, M30), (M30, H1), (H1, H4), (H4, D1), (D1, W1)]
    ensures Nests(fine, coarse)
  {
  }

  /** Aligning to a finer interval first does not change the coarser bucket. */
  lemma AlignThroughFiner(t: Time, fine: Interval, coarse: Interval)
    requires Nests(fine, coarse)
    ensures AlignTime(AlignTime(t, fine), coarse) == AlignTime(t, coarse)
  {
    var a, b := AlignTime(t, fine), AlignTime(t, coarse);
    GreatestBucketStart(t, fine, a);
    GreatestBucketStart(t, coarse, b);
    CoarseIsFine(b, Span(fine), Span(coarse));
    StepsApart(a, b, Span(fine));
    GreatestBucketStart(a, coarse, b);
  }

  lemma CoarseIsFine(b: int, d: int, n: int)
    requires d > 0 && n > 0 && n % d == 0 && b % n == 0
    ensures b % d == 0
  {
    assert n == d * (n / d) && b == n * (b / n);
    Associate(d, n / d, b / n);
    DivModUnique(b, d, n / d * (b / n), 0);
  }
}
