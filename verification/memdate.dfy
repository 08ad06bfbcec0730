/** The calendar keys of the in-memory statistics: a day is filed under
    its year, quarter ("season"), month, week of the month and weekday. A
    month's weeks run Monday to Sunday: week 1 holds the first day, and a
    new week starts after every Sunday. */
module MemDateKeys {
  import opened Calendar

  /** The weekday of day d of a month whose first day falls on weekday
      `first`. */
  function WeekdayFrom(first: int, d: int): (r: int)
    ensures 0 <= r < 7
  {
    (first + d - 1) % 7
  }

  /** The week of the month of day d: one more than the number of Sundays
      among the days before it. */
  function WeekFrom(first: int, d: int): (r: int)
    requires d >= 1
    ensures r >= 1
    decreases d
  {
    if d == 1 then 1 else WeekFrom(first, d - 1) + (if WeekdayFrom(first, d - 1) == Sunday then 1 else 0)
  }

  /** The week of the month of day d in closed form: the first Sunday is
      day (7 - first % 7) % 7 + 1, and every seventh day after it is one
      too. */
  function WeekNo(first: int, d: int): (r: int)
    requires d >= 1
    ensures r >= 1
  {
    1 + (d + 5 - (7 - first % 7) % 7) / 7
  }

  /** Counting Sundays day by day gives the closed form. */
  lemma {:induction false} WeekFromClosed(first: int, d: int)
    requires d >= 1
    ensures WeekFrom(first, d) == WeekNo(first, d)
    decreases d
  {
    if d > 1 {
      WeekFromClosed(first, d - 1);
      var f := first % 7;
      var a := d + 4 - (7 - f) % 7;
      assert WeekNo(first, d - 1) == 1 + a / 7 && WeekNo(first, d) == 1 + (a + 1) / 7;
      assert (a + 1) / 7 - a / 7 == if (a + 1) % 7 == 0 then 1 else 0;
      var q := first / 7;
      assert first == 7 * q + f;
      var g := (7 - f) % 7;
      var k := if g == 0 then q - 1 else q;
      assert g == 0 ==> f == 0;
      assert first + d - 2 == (a + 1) + 7 * k;
      ModUnique(first + d - 2, 7, (a + 1) / 7 + k, (a + 1) % 7);
    }
  }

  /** The calendar's weekday of a day, from the weekday of the month's
      first day. */
  lemma WeekdayOfDay(y: int, m: int, d: int)
    requires 1 <= m <= 12 && d >= 1
    ensures Weekday(y, m, d) == WeekdayFrom(Weekday(y, m, 1), d)
  {
    WeekdayShift(y, m, 1, d - 1);
  }

  /** The keys of a day, as GetKeysForAt returns them. */
  datatype Keys = Keys(year: int, season: int, month: int, week: int, weekDay: int)

  function KeysOf(t: Date): (r: Keys)
    requires Valid(t)
    ensures r.year == t.year && r.month == t.month && r.season == Quarter(t.month)
    ensures r.week >= 1 && 0 <= r.weekDay < 7
  {
    var first := Weekday(t.year, t.month, 1);
    Keys(t.year, Quarter(t.month), t.month, WeekFrom(first, t.day), WeekdayFrom(first, t.day))
  }

  /** GetKeysForAt: walks the month from its first day, counting Sundays,
      until it reaches the day. It finds the day exactly when the day lies
      in the month; a time value always names such a day. */
  method GetKeysForAt(t: Date) returns (keys: Keys, ok: bool)
    requires 1 <= t.month <= 12
    ensures ok <==> Valid(t)
    ensures ok ==> keys == KeysOf(t)
  {
    var y, m := t.year, t.month;
    var week, weekDay := 1, Monday;
    var c := 1;
    ok := false;
    ghost var first := Weekday(y, m, 1);
    while c <= DaysInMonth(y, m)
      invariant 1 <= c <= DaysInMonth(y, m) + 1
      invariant week == WeekFrom(first, c)
      invariant t.day < 1 || t.day >= c
    {
      weekDay := Weekday(y, m, c);
      WeekdayOfDay(y, m, c);
      if c == t.day {
        ok := true;
        break;
      }
      if weekDay == Sunday {
        week := week + 1;
      }
      c := c + 1;
    }
    keys := Keys(y, Quarter(m), m, week, weekDay);
  }

  /** The keys of 21 December 2023: the fourth quarter, the fourth week (1
      December was a Friday, so 3, 10 and 17 December were Sundays), a
      Thursday. */
  lemma KeysOfDecember21()
    ensures KeysOf(Date(2023, 12, 21)) == Keys(2023, 4, 12, 4, 4)
  {
    assert Weekday(2023, 12, 1) == 5;
    WeeksFromFriday();
  }

  /** In a month that starts on a Friday, day 21 lies in week 4 and is a
      Thursday. */
  lemma WeeksFromFriday()
    ensures WeekFrom(5, 21) == 4 && WeekdayFrom(5, 21) == 4
  {
    assert WeekFrom(5, 4) == 2;
    assert WeekFrom(5, 7) == 2;
    WeekSevenLater(5, 7);
    WeekSevenLater(5, 14);
  }

  /** The week number never falls as the days go on. */
  lemma {:induction false} WeekMonotone(first: int, a: int, b: int)
    requires 1 <= a <= b
    ensures WeekFrom(first, a) <= WeekFrom(first, b)
    decreases b
  {
    if a < b {
      WeekMonotone(first, a, b - 1);
    }
  }

  /** Seven consecutive days hold exactly one Sunday, so the week number
      rises by exactly one over them. */
  lemma WeekSevenLater(first: int, a: int)
    requires a >= 1
    ensures WeekFrom(first, a + 7) == WeekFrom(first, a) + 1
  {
    WeekFromClosed(first, a);
    WeekFromClosed(first, a + 7);
    var n := a + 5 - (7 - first % 7) % 7;
    assert (n + 7) / 7 == n / 7 + 1;
  }

  /** Day d lies in week 1 + (d + 5) / 7 at the latest, so a month has at
      most six weeks. */
  lemma {:induction false} WeekBound(first: int, d: int)
    requires d >= 1
    ensures WeekFrom(first, d) <= 1 + (d + 5) / 7
    ensures d <= 31 ==> WeekFrom(first, d) <= 6
    decreases d
  {
    if d <= 8 {
      WeekSevenLater(first, 1);
      WeekMonotone(first, d, 8);
    } else {
      WeekSevenLater(first, d - 7);
      WeekBound(first, d - 7);
    }
  }

  /** Two days of one month never share their week and weekday. */
  lemma KeysInjective(first: int, d1: int, d2: int)
    requires 1 <= d1 && 1 <= d2 && d1 != d2
    ensures WeekFrom(first, d1) != WeekFrom(first, d2) || WeekdayFrom(first, d1) != WeekdayFrom(first, d2)
  {
    if d1 > d2 {
      KeysInjectiveOrdered(first, d2, d1);
    } else {
      KeysInjectiveOrdered(first, d1, d2);
    }
  }

  /** A Sunday from day a on, before day b, starts a new week by b. */
  lemma SundayBetween(first: int, a: int, s: int, b: int)
    requires 1 <= a <= s < b && WeekdayFrom(first, s) == Sunday
    ensures WeekFrom(first, a) < WeekFrom(first, b)
  {
    WeekMonotone(first, a, s);
    WeekMonotone(first, s + 1, b);
    assert WeekFrom(first, s + 1) == WeekFrom(first, s) + 1;
  }

  lemma KeysInjectiveOrdered(first: int, d1: int, d2: int)
    requires 1 <= d1 < d2
    ensures WeekFrom(first, d1) != WeekFrom(first, d2) || WeekdayFrom(first, d1) != WeekdayFrom(first, d2)
  {
    var w := WeekdayFrom(first, d1);
    var j := if w == 0 then 0 else 7 - w;
    var s := d1 + j;
    WeekdayStep(first, d1, j);
    if s < d2 {
      SundayBetween(first, d1, s, d2);
    } else {
      WithinAWeek(first, d1, d2);
    }
  }

  /** Two days less than a week apart have different weekdays. */
  lemma WithinAWeek(first: int, d1: int, d2: int)
    requires 1 <= d1 < d2 < d1 + 7
    ensures WeekdayFrom(first, d1) != WeekdayFrom(first, d2)
  {
    WeekdayStep(first, d1, d2 - d1);
  }

  /** k days later is k weekdays later. */
  lemma WeekdayStep(first: int, d: int, k: int)
    requires k >= 0
    ensures WeekdayFrom(first, d + k) == (WeekdayFrom(first, d) + k) % 7
  {
    var q := (first + d - 1) / 7;
    var w := WeekdayFrom(first, d);
    assert first + d - 1 == 7 * q + w;
    var q2 := (w + k) / 7;
    assert w + k == 7 * q2 + (w + k) % 7;
    ModUnique(first + d + k - 1, 7, q + q2, (w + k) % 7);
  }
}
