/** The date statistics with integer totals and addition as Combine: every
    total is then the sum of its children's totals, at every level, and
    SetDayData keeps it so. */
module MemDateSums {
  import opened Sums
  import opened Calendar
  import opened MemDateKeys
  import opened MemDate

  function Plus(a: int, b: int): int {
    a + b
  }

  ghost function DayTotals(wn: WeekNode<int>): map<int, int> {
    map wd | wd in wn.days :: wn.days[wd].total
  }

  ghost function WeekTotals(mn: MonthNode<int>): map<int, int> {
    map w | w in mn.weeks :: mn.weeks[w].total
  }

  ghost function MonthTotals(sn: SeasonNode<int>): map<int, int> {
    map m | m in sn.months :: sn.months[m].total
  }

  ghost function SeasonTotals(yn: YearNode<int>): map<int, int> {
    map q | q in yn.seasons :: yn.seasons[q].total
  }

  ghost predicate WeekSums(wn: WeekNode<int>) {
    wn.total == MapSum(DayTotals(wn))
  }

  ghost predicate MonthSums(mn: MonthNode<int>) {
    mn.total == MapSum(WeekTotals(mn)) && forall w :: w in mn.weeks ==> WeekSums(mn.weeks[w])
  }

  ghost predicate SeasonSums(sn: SeasonNode<int>) {
    sn.total == MapSum(MonthTotals(sn)) && forall m :: m in sn.months ==> MonthSums(sn.months[m])
  }

  /** Each total of the year is the sum of its children's totals. */
  ghost predicate YearSums(yn: YearNode<int>) {
    yn.total == MapSum(SeasonTotals(yn)) && forall q :: q in yn.seasons ==> SeasonSums(yn.seasons[q])
  }

  lemma WeekBumpSums(wn: WeekNode<int>, wd: int, d: int)
    requires wd in wn.days && WeekSums(wn)
    ensures WeekSums(BumpWeek(wn, wd, d, Plus))
  {
    var m := DayTotals(wn);
    assert DayTotals(BumpWeek(wn, wd, d, Plus)) == m[wd := m[wd] + d];
    MapSumUpdate(m, wd, m[wd] + d);
  }

  lemma MonthBumpSums(mn: MonthNode<int>, w: int, wd: int, d: int)
    requires w in mn.weeks && wd in mn.weeks[w].days && MonthSums(mn)
    ensures MonthSums(BumpMonth(mn, w, wd, d, Plus))
  {
    var m := WeekTotals(mn);
    var r := BumpMonth(mn, w, wd, d, Plus);
    assert WeekTotals(r) == m[w := m[w] + d];
    MapSumUpdate(m, w, m[w] + d);
    WeekBumpSums(mn.weeks[w], wd, d);
  }

  lemma SeasonBumpSums(sn: SeasonNode<int>, k: Keys, d: int)
    requires k.month in sn.months && k.week in sn.months[k.month].weeks
    requires k.weekDay in sn.months[k.month].weeks[k.week].days
    requires SeasonSums(sn)
    ensures SeasonSums(BumpSeason(sn, k, d, Plus))
  {
    var m := MonthTotals(sn);
    var r := BumpSeason(sn, k, d, Plus);
    assert MonthTotals(r) == m[k.month := m[k.month] + d];
    MapSumUpdate(m, k.month, m[k.month] + d);
    MonthBumpSums(sn.months[k.month], k.week, k.weekDay, d);
  }

  /** Adding d on one day's path keeps every total the sum of its
      children. */
  lemma YearBumpSums(yn: YearNode<int>, k: Keys, d: int)
    requires HasPath(yn, k) && YearSums(yn)
    ensures YearSums(BumpYear(yn, k, d, Plus))
  {
    var m := SeasonTotals(yn);
    var r := BumpYear(yn, k, d, Plus);
    assert SeasonTotals(r) == m[k.season := m[k.season] + d];
    MapSumUpdate(m, k.season, m[k.season] + d);
    SeasonBumpSums(yn.seasons[k.season], k, d);
  }

  /** Weeks that file days with zero totals sum. */
  lemma FiledSums(ws: map<int, WeekNode<int>>, first: int, n: int)
    requires OnlyFiled(ws, first, n, 0)
    ensures MonthSums(MonthNode(0, ws))
  {
    forall w | w in ws
      ensures WeekSums(ws[w])
    {
      forall wd | wd in ws[w].days
        ensures ws[w].days[wd].total == 0
      {
        assert HoldsOwnDay(ws, first, n, 0, w, wd);
      }
      MapSumZero(DayTotals(ws[w]));
    }
    var wt := WeekTotals(MonthNode(0, ws));
    forall w | w in wt
      ensures wt[w] == 0
    {
      assert ws[w].total == 0;
    }
    MapSumZero(wt);
  }

  /** A freshly built month sums: every total in it is zero. */
  lemma MonthOfSums(y: int, m: int)
    requires 1 <= m <= 12
    ensures MonthSums(MonthOf(y, m, 0))
  {
    var first := Weekday(y, m, 1);
    FileDaysFacts(first, DaysInMonth(y, m), 0);
    FiledSums(FileDays(first, DaysInMonth(y, m), 0), first, DaysInMonth(y, m));
  }

  /** A freshly built year sums. */
  lemma YearOfSums(y: int)
    ensures YearSums(YearOf(y, 0))
  {
    var yn := YearOf(y, 0);
    forall q | q in yn.seasons
      ensures SeasonSums(yn.seasons[q])
    {
      var sn := yn.seasons[q];
      forall m | m in sn.months
        ensures MonthSums(sn.months[m])
      {
        MonthOfSums(y, m);
      }
      MapSumZero(MonthTotals(sn));
    }
    MapSumZero(SeasonTotals(yn));
  }

  /** Every year of every key sums. */
  ghost predicate StoreSums<K>(s: Store<K, int>) {
    forall key, y :: key in s && y in s[key] ==> YearSums(s[key][y])
  }

  /** With addition as Combine, SetDayData keeps every total the sum of its
      children's, whether the year existed or was created. */
  lemma SetDayKeepsSums<K(!new)>(s: Store<K, int>, key: K, at: Date, d: int)
    requires WellFormed(s) && StoreSums(s) && Valid(at)
    ensures StoreSums(SetDayData(s, key, at, d, Plus, 0).0)
  {
    var s1 := MustYear(s, key, at.year, 0);
    var r := SetDayData(s, key, at, d, Plus, 0).0;
    var yn := s1[key][at.year];
    if key in s && at.year in s[key] {
      assert YearSums(yn);
    } else {
      YearOfSums(at.year);
    }
    assert HasPath(yn, KeysOf(at));
    YearBumpSums(yn, KeysOf(at), d);
    forall k2, y2 | k2 in r && y2 in r[k2]
      ensures YearSums(r[k2][y2])
    {
      if k2 != key || y2 != at.year {
        assert r[k2][y2] == s[k2][y2];
      }
    }
  }
}
