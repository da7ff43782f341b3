/**
 * Naive local date-times as Python's `datetime` module represents them: a proleptic
 * Gregorian date (years 1 to 9999) and a time of day down to the microsecond.
 * Differences are taken on the instant line (days since 0001-01-01 via the ordinal,
 * then microseconds), comparisons field by field, as CPython does; `InstantOrder`
 * shows the two agree.
 */
module Calendar {
  import opened Wrappers

  const SecondMicros: int := 1_000_000
  const DayMicros: int := 86400 * SecondMicros
  const MaxYear: int := 9999
  /** The ordinal of 9999-12-31, the last day `datetime` can hold. */
  const MaxOrdinal: int := 3652059

  predicate IsLeap(y: int) { y % 4 == 0 && (y % 100 != 0 || y % 400 == 0) }

  function DaysInYear(y: int): int { if IsLeap(y) then 366 else 365 }

  function DaysInMonth(y: int, m: int): (n: int)
    requires 1 <= m <= 12
    ensures 28 <= n <= 31
  {
    if m == 2 then (if IsLeap(y) then 29 else 28)
    else if m == 4 || m == 6 || m == 9 || m == 11 then 30
    else 31
  }

  /** Days in the year before the first day of month `m`. */
  function DaysBeforeMonth(y: int, m: int): int
    requires 1 <= m <= 12
  {
    [0, 31, 59, 90, 120, 151, 181, 212, 243, 273, 304, 334][m - 1] + (if m > 2 && IsLeap(y) then 1 else 0)
  }

  /** Days in the years before year `y`, counted from year 1. */
  function DaysBeforeYear(y: int): int
    requires y >= 1
  {
    var p := y - 1;
    p * 365 + p / 4 - p / 100 + p / 400
  }

  datatype Date = Date(year: int, month: int, day: int)

  predicate ValidDate(d: Date)
  {
    1 <= d.year <= MaxYear && 1 <= d.month <= 12 && 1 <= d.day <= DaysInMonth(d.year, d.month)
  }

  /** `date.toordinal()`: 0001-01-01 is day 1. */
  function Ordinal(d: Date): int
    requires ValidDate(d)
  {
    DaysBeforeYear(d.year) + DaysBeforeMonth(d.year, d.month) + d.day
  }

  datatype DateTime = DateTime(date: Date, hour: int, minute: int, second: int, micro: int)

  predicate ValidDateTime(t: DateTime)
  {
    ValidDate(t.date) && 0 <= t.hour < 24 && 0 <= t.minute < 60 && 0 <= t.second < 60 && 0 <= t.micro < SecondMicros
  }

  function TimeOfDay(t: DateTime): int
  {
    ((t.hour * 60 + t.minute) * 60 + t.second) * SecondMicros + t.micro
  }

  /** Position of `t` on the time line, in microseconds. */
  function Instant(t: DateTime): int
    requires ValidDateTime(t)
  {
    Ordinal(t.date) * DayMicros + TimeOfDay(t)
  }

  /** Every instant a `datetime` can denote lies in this range. */
  predicate InRange(i: int) { DayMicros <= i < (MaxOrdinal + 1) * DayMicros }

  /** `a < b` on dates: year, then month, then day. */
  predicate DateBefore(a: Date, b: Date)
  {
    if a.year != b.year then a.year < b.year
    else if a.month != b.month then a.month < b.month
    else a.day < b.day
  }

  /** `a < b` on naive datetimes: CPython compares the fields in order. */
  predicate Before(a: DateTime, b: DateTime)
  {
    if a.date != b.date then DateBefore(a.date, b.date)
    else if a.hour != b.hour then a.hour < b.hour
    else if a.minute != b.minute then a.minute < b.minute
    else if a.second != b.second then a.second < b.second
    else a.micro < b.micro
  }

  /** `a <= b` on naive datetimes. */
  predicate AtOrBefore(a: DateTime, b: DateTime) { !Before(b, a) }

  /** `d + timedelta(days=1)`; `None` is the OverflowError past 9999-12-31. */
  function NextDay(d: Date): (r: Option<Date>)
    requires ValidDate(d)
    ensures r.Some? ==> ValidDate(r.value) && Ordinal(r.value) == Ordinal(d) + 1
    ensures r.None? <==> d == Date(MaxYear, 12, 31)
  {
    if d.day < DaysInMonth(d.year, d.month) then Some(d.(day := d.day + 1))
    else if d.month < 12 then
      MonthStep(d.year, d.month);
      Some(Date(d.year, d.month + 1, 1))
    else if d.year < MaxYear then
      YearStep(d.year);
      Some(Date(d.year + 1, 1, 1))
    else None
  }

  /** `d.replace(day=day)`; `None` is the ValueError for a day the month does not have. */
  function ReplaceDay(d: Date, day: int): (r: Option<Date>)
    requires ValidDate(d)
    ensures r.Some? <==> 1 <= day <= DaysInMonth(d.year, d.month)
    ensures r.Some? ==> ValidDate(r.value) && r.value.year == d.year && r.value.month == d.month && r.value.day == day
  {
    if 1 <= day <= DaysInMonth(d.year, d.month) then Some(d.(day := day)) else None
  }

  /**
   * `int(delta.total_seconds())` for a difference of `micros` microseconds: the whole
   * seconds, truncated toward zero.
   */
  function TruncSeconds(micros: int): (r: int)
    ensures micros >= 0 ==> 0 <= r * SecondMicros <= micros < (r + 1) * SecondMicros
    ensures micros < 0 ==> (r - 1) * SecondMicros < micros <= r * SecondMicros <= 0
  {
    if micros >= 0 then micros / SecondMicros else -((-micros) / SecondMicros)
  }

  // ---------------------------------------------------------------------------
  // Lemmas

  /** Counting multiples of `k` up to `p + 1` adds one exactly when `p + 1` is a multiple. */
  lemma DivStep(p: int, k: int)
    requires p >= 0 && (k == 4 || k == 100 || k == 400)
    ensures (p + 1) / k == p / k + (if (p + 1) % k == 0 then 1 else 0)
  {
    if k == 4 {
      assert (p + 1) / 4 == p / 4 + (if (p + 1) % 4 == 0 then 1 else 0);
    } else if k == 100 {
      assert (p + 1) / 100 == p / 100 + (if (p + 1) % 100 == 0 then 1 else 0);
    } else {
      assert (p + 1) / 400 == p / 400 + (if (p + 1) % 400 == 0 then 1 else 0);
    }
  }

  lemma LeapDivisors(y: int)
    ensures y % 400 == 0 ==> y % 100 == 0
    ensures y % 100 == 0 ==> y % 4 == 0
  {
    Multiple400(y);
    Multiple100(y);
  }

  lemma Multiple400(y: int)
    ensures y % 400 == 0 ==> y % 100 == 0
  {
    var q, r := y / 400, y % 400;
    assert y == 100 * (4 * q + r / 100) + r % 100;
  }

  lemma Multiple100(y: int)
    ensures y % 100 == 0 ==> y % 4 == 0
  {
    var q, r := y / 100, y % 100;
    assert y == 4 * (25 * q + r / 4) + r % 4;
  }

  lemma YearStep(y: int)
    requires y >= 1
    ensures DaysBeforeYear(y + 1) == DaysBeforeYear(y) + DaysInYear(y)
  {
    var p := y - 1;
    DivStep(p, 4);
    DivStep(p, 100);
    DivStep(p, 400);
    LeapDivisors(y);
  }

  lemma MonthStep(y: int, m: int)
    requires 1 <= m < 12
    ensures DaysBeforeMonth(y, m + 1) == DaysBeforeMonth(y, m) + DaysInMonth(y, m)
  {
  }

  lemma {:induction false} MonthsMonotone(y: int, m1: int, m2: int)
    requires 1 <= m1 < m2 <= 12
    ensures DaysBeforeMonth(y, m1) + DaysInMonth(y, m1) <= DaysBeforeMonth(y, m2)
    decreases m2 - m1
  {
    MonthStep(y, m1);
    if m1 + 1 < m2 {
      MonthsMonotone(y, m1 + 1, m2);
    }
  }

  /** A day of year `y` lies within the year's days. */
  lemma DayOfYearBound(d: Date)
    requires ValidDate(d)
    ensures 1 <= DaysBeforeMonth(d.year, d.month) + d.day <= DaysInYear(d.year)
  {
    if d.month < 12 {
      MonthsMonotone(d.year, d.month, 12);
    }
  }

  lemma {:induction false} YearsMonotone(y1: int, y2: int)
    requires 1 <= y1 < y2
    ensures DaysBeforeYear(y1) + DaysInYear(y1) <= DaysBeforeYear(y2)
    decreases y2 - y1
  {
    YearStep(y1);
    if y1 + 1 < y2 {
      YearsMonotone(y1 + 1, y2);
    }
  }

  /** Later dates have larger ordinals. */
  lemma OrdinalMonotone(a: Date, b: Date)
    requires ValidDate(a) && ValidDate(b) && DateBefore(a, b)
    ensures Ordinal(a) < Ordinal(b)
  {
    if a.year != b.year {
      DayOfYearBound(a);
      YearsMonotone(a.year, b.year);
    } else if a.month != b.month {
      MonthsMonotone(a.year, a.month, b.month);
    }
  }

  lemma TimeOfDayBound(t: DateTime)
    requires ValidDateTime(t)
    ensures 0 <= TimeOfDay(t) < DayMicros
  {
  }

  lemma TimeOfDayMonotone(a: DateTime, b: DateTime)
    requires ValidDateTime(a) && ValidDateTime(b) && a.date == b.date && Before(a, b)
    ensures TimeOfDay(a) < TimeOfDay(b)
  {
  }

  lemma BeforeInstant(a: DateTime, b: DateTime)
    requires ValidDateTime(a) && ValidDateTime(b) && Before(a, b)
    ensures Instant(a) < Instant(b)
  {
    TimeOfDayBound(a);
    TimeOfDayBound(b);
    if a.date != b.date {
      OrdinalMonotone(a.date, b.date);
      var oa, ob := Ordinal(a.date), Ordinal(b.date);
      assert Instant(a) < (oa + 1) * DayMicros <= ob * DayMicros <= Instant(b);
    } else {
      TimeOfDayMonotone(a, b);
    }
  }

  lemma DateTrichotomy(a: Date, b: Date)
    requires a != b
    ensures DateBefore(a, b) || DateBefore(b, a)
  {
  }

  /**
   * Field-by-field comparison, as CPython compares naive datetimes, orders them exactly as
   * their instants do; so `target <= now` in the source is `Instant(target) <= Instant(now)`.
   */
  lemma InstantOrder(a: DateTime, b: DateTime)
    requires ValidDateTime(a) && ValidDateTime(b)
    ensures Before(a, b) <==> Instant(a) < Instant(b)
    ensures AtOrBefore(a, b) <==> Instant(a) <= Instant(b)
  {
    if Before(a, b) {
      BeforeInstant(a, b);
    }
    if Before(b, a) {
      BeforeInstant(b, a);
    }
    if !Before(a, b) && !Before(b, a) {
      if a.date != b.date {
        DateTrichotomy(a.date, b.date);
      }
      assert a == b;
    }
  }

  /** Every valid datetime denotes an instant in the range `datetime` supports. */
  lemma InstantInRange(t: DateTime)
    requires ValidDateTime(t)
    ensures InRange(Instant(t))
  {
    var o := Ordinal(t.date);
    assert o <= MaxOrdinal by {
      var last := Date(MaxYear, 12, 31);
      assert Ordinal(last) == MaxOrdinal;
      if t.date != last {
        DateTrichotomy(t.date, last);
        OrdinalMonotone(t.date, last);
      }
    }
    assert 1 <= o by {
      var p := t.date.year - 1;
      assert p / 4 - p / 100 >= 0 && p / 400 >= 0;
      DayOfYearBound(t.date);
    }
    TimeOfDayBound(t);
    assert Instant(t) == o * DayMicros + TimeOfDay(t);
  }
}
