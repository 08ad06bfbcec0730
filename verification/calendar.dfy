/** The proleptic Gregorian calendar the time package computes with: day
    counts, leap years and weekdays (Sunday = 0 ... Saturday = 6). Time
    zones and clock changes are not part of it. */
module Calendar {
  const Sunday := 0
  const Monday := 1

  /** A calendar day, as a time value's Year(), Month() and Day() give it. */
  datatype Date = Date(year: int, month: int, day: int)

  predicate IsLeap(y: int) {
    y % 4 == 0 && (y % 100 != 0 || y % 400 == 0)
  }

  function DaysInMonth(y: int, m: int): (r: int)
    requires 1 <= m <= 12
    ensures 28 <= r <= 31
    ensures m == 2 ==> (r == 29 <==> IsLeap(y))
  {
    if m == 2 then (if IsLeap(y) then 29 else 28)
    else if m == 4 || m == 6 || m == 9 || m == 11 then 30
    else 31
  }

  /** A day a time value can name. */
  predicate Valid(t: Date) {
    1 <= t.month <= 12 && 1 <= t.day <= DaysInMonth(t.year, t.month)
  }

  /** The day count of 1 March of year y1 + 1, less one: the start of the
      March-based year y1. */
  function MarchYearStart(y1: int): int {
    var era := y1 / 400;
    var yoe := y1 - era * 400;
    era * 146097 + yoe * 365 + yoe / 4 - yoe / 100 - 719468
  }

  /** Days since 1970-01-01 (negative before it), by shifting the year to
      start in March so that the leap day comes last. */
  function DaysFromCivil(y: int, m: int, d: int): int
    requires 1 <= m <= 12
  {
    var y1 := if m <= 2 then y - 1 else y;
    var mp := if m > 2 then m - 3 else m + 9;
    MarchYearStart(y1) + (153 * mp + 2) / 5 + d - 1
  }

  /** The weekday of day d of month m (d may run past the month's end; it
      then counts on). 1970-01-01 was a Thursday. */
  function Weekday(y: int, m: int, d: int): (r: int)
    requires 1 <= m <= 12
    ensures 0 <= r < 7
  {
    (DaysFromCivil(y, m, d) + 4) % 7
  }

  /** The quarter of a month: months 1-3 are quarter 1, and so on. */
  function Quarter(m: int): (r: int)
    requires 1 <= m <= 12
    ensures 1 <= r <= 4
    ensures (r - 1) * 3 + 1 <= m <= (r - 1) * 3 + 3
  {
    (m - 1) / 3 + 1
  }

  /** Quarter s holds exactly months (s - 1) * 3 + 1 to (s - 1) * 3 + 3. */
  lemma QuarterMonths(s: int)
    requires 1 <= s <= 4
    ensures forall m :: 1 <= m <= 12 ==> (Quarter(m) == s <==> (s - 1) * 3 + 1 <= m <= (s - 1) * 3 + 3)
  {
  }

  /** Each day of a month is one weekday after the previous one, k days
      later is k weekdays later. */
  lemma WeekdayShift(y: int, m: int, d: int, k: int)
    requires 1 <= m <= 12 && k >= 0
    ensures Weekday(y, m, d + k) == (Weekday(y, m, d) + k) % 7
  {
    assert DaysFromCivil(y, m, d + k) == DaysFromCivil(y, m, d) + k;
  }

  lemma DivStep4(x: int)
    ensures (x + 1) / 4 - x / 4 == if (x + 1) % 4 == 0 then 1 else 0
  {
  }

  lemma DivStep100(x: int)
    ensures (x + 1) / 100 - x / 100 == if (x + 1) % 100 == 0 then 1 else 0
  {
  }

  lemma {:induction false} MulAtLeast(c: int, k: int)
    requires c > 0 && k >= 1
    ensures c * k >= c
    decreases k
  {
    if k > 1 {
      MulAtLeast(c, k - 1);
      assert c * k == c * (k - 1) + c;
    }
  }

  lemma ModUnique(x: int, c: int, q: int, r: int)
    requires c > 0 && x == c * q + r && 0 <= r < c
    ensures x % c == r
  {
    var d := x / c;
    assert x == c * d + x % c && 0 <= x % c < c;
    if d < q {
      MulAtLeast(c, q - d);
    } else if d > q {
      MulAtLeast(c, d - q);
    }
  }

  lemma ModShift(a: int, era: int)
    ensures (400 * era + a) % 4 == a % 4
    ensures (400 * era + a) % 100 == a % 100
    ensures (400 * era + a) % 400 == a % 400
  {
    ModUnique(400 * era + a, 4, 100 * era + a / 4, a % 4);
    ModUnique(400 * era + a, 100, 4 * era + a / 100, a % 100);
    ModUnique(400 * era + a, 400, era + a / 400, a % 400);
  }

  /** A March-based year that ends in a leap February has 366 days. */
  lemma MarchYearLength(y: int)
    ensures MarchYearStart(y) - MarchYearStart(y - 1) == if IsLeap(y) then 366 else 365
  {
    var era := (y - 1) / 400;
    var yoe := (y - 1) - era * 400;
    assert 0 <= yoe < 400;
    ModShift(yoe + 1, era);
    assert y == 400 * era + (yoe + 1);
    if yoe == 399 {
      assert y / 400 == era + 1 && y - (era + 1) * 400 == 0;
      assert MarchYearStart(y) == (era + 1) * 146097 - 719468;
      assert MarchYearStart(y - 1) == era * 146097 + 145731 - 719468;
    } else {
      assert y / 400 == era && y - era * 400 == yoe + 1;
      DivStep4(yoe);
      DivStep100(yoe);
      assert MarchYearStart(y) - MarchYearStart(y - 1) ==
        365 + ((yoe + 1) / 4 - yoe / 4) - ((yoe + 1) / 100 - yoe / 100);
    }
  }

  /** The day count is the real calendar's: the day after the last of a
      month is the first of the next month (or of the next year). */
  lemma NextMonthFollows(y: int, m: int)
    requires 1 <= m <= 12
    ensures m < 12 ==> DaysFromCivil(y, m + 1, 1) == DaysFromCivil(y, m, DaysInMonth(y, m)) + 1
    ensures m == 12 ==> DaysFromCivil(y + 1, 1, 1) == DaysFromCivil(y, 12, 31) + 1
  {
    if m == 2 {
      MarchYearLength(y);
    }
  }

  /** Known days: 1970-01-01 was a Thursday, 2024-01-01 a Monday. */
  lemma KnownWeekdays()
    ensures Weekday(1970, 1, 1) == 4
    ensures Weekday(2024, 1, 1) == Monday
  {
    assert 1969 / 400 == 4 && 369 / 4 == 92 && 369 / 100 == 3;
    assert MarchYearStart(1969) == -306;
    assert 2023 / 400 == 5 && 23 / 4 == 5 && 23 / 100 == 0;
    assert MarchYearStart(2023) == 19417;
    assert (153 * 10 + 2) / 5 == 306;
    assert DaysFromCivil(1970, 1, 1) == 0;
    assert DaysFromCivil(2024, 1, 1) == 19723;
  }
}
