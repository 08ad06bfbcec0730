/** The in-memory date statistics: per key, a tree year -> quarter
    ("season") -> month -> week of the month -> weekday, every node holding
    a running total. A day's data is combined into the totals of all five
    nodes on its path. The total type and its Combine are parameters. */
module MemDate {
  import opened Wrappers
  import opened Calendar
  import opened MemDateKeys

  datatype DayNode<T> = DayNode(total: T, day: int)
  datatype WeekNode<T> = WeekNode(total: T, days: map<int, DayNode<T>>)
  datatype MonthNode<T> = MonthNode(total: T, weeks: map<int, WeekNode<T>>)
  datatype SeasonNode<T> = SeasonNode(total: T, months: map<int, MonthNode<T>>)
  datatype YearNode<T> = YearNode(total: T, seasons: map<int, SeasonNode<T>>)

  /** The statistics: key -> year -> tree of that year. */
  type Store<K, T> = map<K, map<int, YearNode<T>>>

  // ---------------------------------------------------------------------
  // Building a month

  /** Day d of a month whose first day is weekday `first` is filed, with
      a zero total, under its week and weekday. */
  ghost predicate FiledAt<T>(ws: map<int, WeekNode<T>>, first: int, d: int, zero: T)
    requires d >= 1
  {
    var w, wd := WeekFrom(first, d), WeekdayFrom(first, d);
    w in ws && wd in ws[w].days && ws[w].days[wd] == DayNode(zero, d)
  }

  /** The entry under (w, wd) holds one of days 1..c, with a zero total,
      and that day's week and weekday are (w, wd). */
  ghost predicate HoldsOwnDay<T>(ws: map<int, WeekNode<T>>, first: int, c: int, zero: T, w: int, wd: int)
    requires w in ws && wd in ws[w].days
  {
    var dn := ws[w].days[wd];
    dn.total == zero && 1 <= dn.day <= c && WeekFrom(first, dn.day) == w && WeekdayFrom(first, dn.day) == wd
  }

  /** Days 1..c are all filed. */
  ghost predicate AllFiled<T>(ws: map<int, WeekNode<T>>, first: int, c: int, zero: T) {
    forall d :: 1 <= d <= c ==> FiledAt(ws, first, d, zero)
  }

  /** Every entry holds one of days 1..c under that day's own keys, and
      every week is non-empty with a zero total. */
  ghost predicate OnlyFiled<T>(ws: map<int, WeekNode<T>>, first: int, c: int, zero: T) {
    (forall w, wd :: w in ws && wd in ws[w].days ==> HoldsOwnDay(ws, first, c, zero, w, wd)) &&
    (forall w :: w in ws ==> ws[w].total == zero && exists wd :: wd in ws[w].days)
  }

  /** The weeks after filing days 1..c one by one, as NewMonthData's loop
      does: a week is created on its first day. */
  function FileDays<T>(first: int, c: nat, zero: T): map<int, WeekNode<T>>
    decreases c
  {
    if c == 0 then map[]
    else
      var ws := FileDays(first, c - 1, zero);
      var w, wd := WeekFrom(first, c), WeekdayFrom(first, c);
      var wk := if w in ws then ws[w] else WeekNode(zero, map[]);
      ws[w := wk.(days := wk.days[wd := DayNode(zero, c)])]
  }

  /** NewMonthData's result: the month of year y, every day filed. */
  function MonthOf<T>(y: int, m: int, zero: T): MonthNode<T>
    requires 1 <= m <= 12
  {
    MonthNode(zero, FileDays(Weekday(y, m, 1), DaysInMonth(y, m), zero))
  }

  /** Filing day c after days 1..c-1 keeps every earlier day in place and
      files nothing but day c. */
  lemma FileOneMore<T>(ws: map<int, WeekNode<T>>, first: int, c: int, zero: T)
    requires c >= 1 && AllFiled(ws, first, c - 1, zero) && OnlyFiled(ws, first, c - 1, zero)
    ensures var w, wd := WeekFrom(first, c), WeekdayFrom(first, c);
            var wk := if w in ws then ws[w] else WeekNode(zero, map[]);
            var ws' := ws[w := wk.(days := wk.days[wd := DayNode(zero, c)])];
            AllFiled(ws', first, c, zero) && OnlyFiled(ws', first, c, zero)
  {
    var w, wd := WeekFrom(first, c), WeekdayFrom(first, c);
    var wk := if w in ws then ws[w] else WeekNode(zero, map[]);
    var ws' := ws[w := wk.(days := wk.days[wd := DayNode(zero, c)])];
    forall d | 1 <= d <= c
      ensures FiledAt(ws', first, d, zero)
    {
      if d < c {
        KeysInjective(first, d, c);
        assert FiledAt(ws, first, d, zero);
      }
    }
    forall w2, wd2 | w2 in ws' && wd2 in ws'[w2].days
      ensures HoldsOwnDay(ws', first, c, zero, w2, wd2)
    {
      if w2 != w || wd2 != wd {
        assert w2 in ws && wd2 in ws[w2].days;
        assert HoldsOwnDay(ws, first, c - 1, zero, w2, wd2);
      }
    }
    forall w2 | w2 in ws'
      ensures ws'[w2].total == zero && exists wd2 :: wd2 in ws'[w2].days
    {
      if w2 == w {
        assert wd in ws'[w2].days;
      } else {
        var wd2 :| wd2 in ws[w2].days;
        assert wd2 in ws'[w2].days;
      }
    }
  }

  /** Filing days 1..c files each of them under its own keys, no later day
      overwriting an earlier one, and files nothing else; every total is
      zero. */
  lemma {:induction false} FileDaysFacts<T>(first: int, c: nat, zero: T)
    ensures AllFiled(FileDays(first, c, zero), first, c, zero)
    ensures OnlyFiled(FileDays(first, c, zero), first, c, zero)
    decreases c
  {
    if c > 0 {
      var n: nat := c - 1;
      FileDaysFacts(first, n, zero);
      FileOneMore(FileDays(first, n, zero), first, c, zero);
    }
  }

  /** NewMonthData: walks the month from its first day, counting Sundays
      as GetKeysForAt does, and files each day under its week and weekday
      with a zero total. Every day of the month is filed, under the keys
      GetKeysForAt gives it, and nothing else is. */
  method NewMonthData<T>(y: int, m: int, zero: T) returns (md: MonthNode<T>)
    requires 1 <= m <= 12
    ensures md == MonthOf(y, m, zero)
    ensures md.total == zero
    ensures forall d :: 1 <= d <= DaysInMonth(y, m) ==>
              var k := KeysOf(Date(y, m, d));
              k.week in md.weeks && k.weekDay in md.weeks[k.week].days &&
              md.weeks[k.week].days[k.weekDay] == DayNode(zero, d)
    ensures forall w, wd :: w in md.weeks && wd in md.weeks[w].days ==>
              var d := md.weeks[w].days[wd].day;
              1 <= d <= DaysInMonth(y, m) && KeysOf(Date(y, m, d)).week == w && KeysOf(Date(y, m, d)).weekDay == wd
  {
    var weeks: map<int, WeekNode<T>> := map[];
    var week := 1;
    var c := 1;
    ghost var first := Weekday(y, m, 1);
    while c <= DaysInMonth(y, m)
      invariant 1 <= c <= DaysInMonth(y, m) + 1
      invariant week == WeekFrom(first, c)
      invariant weeks == FileDays(first, c - 1, zero)
    {
      var weekDay := Weekday(y, m, c);
      WeekdayOfDay(y, m, c);
      var wk := if week in weeks then weeks[week] else WeekNode(zero, map[]);
      weeks := weeks[week := wk.(days := wk.days[weekDay := DayNode(zero, c)])];
      if weekDay == Sunday {
        week := week + 1;
      }
      c := c + 1;
    }
    md := MonthNode(zero, weeks);
    MonthFilesEveryDay(y, m, zero);
  }

  /** The month built by NewMonthData files every day of the month under
      its own week and weekday, and nothing else. */
  lemma MonthFilesEveryDay<T>(y: int, m: int, zero: T)
    requires 1 <= m <= 12
    ensures var md := MonthOf(y, m, zero);
            forall d :: 1 <= d <= DaysInMonth(y, m) ==>
              var k := KeysOf(Date(y, m, d));
              k.week in md.weeks && k.weekDay in md.weeks[k.week].days &&
              md.weeks[k.week].days[k.weekDay] == DayNode(zero, d)
    ensures var md := MonthOf(y, m, zero);
            forall w, wd :: w in md.weeks && wd in md.weeks[w].days ==>
              var d := md.weeks[w].days[wd].day;
              1 <= d <= DaysInMonth(y, m) && KeysOf(Date(y, m, d)).week == w && KeysOf(Date(y, m, d)).weekDay == wd
  {
    var first := Weekday(y, m, 1);
    var md := MonthOf(y, m, zero);
    var weeks := md.weeks;
    FileDaysFacts(first, DaysInMonth(y, m), zero);
    forall d | 1 <= d <= DaysInMonth(y, m)
      ensures var k := KeysOf(Date(y, m, d));
              k.week in md.weeks && k.weekDay in md.weeks[k.week].days &&
              md.weeks[k.week].days[k.weekDay] == DayNode(zero, d)
    {
      assert FiledAt(weeks, first, d, zero);
    }
    forall w, wd | w in md.weeks && wd in md.weeks[w].days
      ensures var d := md.weeks[w].days[wd].day;
              1 <= d <= DaysInMonth(y, m) && KeysOf(Date(y, m, d)).week == w && KeysOf(Date(y, m, d)).weekDay == wd
    {
      assert HoldsOwnDay(weeks, first, DaysInMonth(y, m), zero, w, wd);
    }
  }

  /** NewSeasonData: a quarter holds exactly the three months whose
      quarter it is, each freshly built. */
  function SeasonOf<T>(y: int, s: int, zero: T): (r: SeasonNode<T>)
    requires 1 <= s <= 4
    ensures r.total == zero
    ensures forall m :: m in r.months <==> 1 <= m <= 12 && Quarter(m) == s
    ensures forall m :: m in r.months ==> 1 <= m <= 12 && r.months[m] == MonthOf(y, m, zero)
  {
    QuarterMonths(s);
    SeasonNode(zero, map m | (s - 1) * 3 + 1 <= m <= (s - 1) * 3 + 3 :: MonthOf(y, m, zero))
  }

  /** NewYearData: a year holds exactly quarters 1 to 4. */
  function YearOf<T>(y: int, zero: T): (r: YearNode<T>)
    ensures r.total == zero
    ensures forall s :: s in r.seasons <==> 1 <= s <= 4
    ensures forall s :: s in r.seasons ==> r.seasons[s] == SeasonOf(y, s, zero)
  {
    YearNode(zero, map s | 1 <= s <= 4 :: SeasonOf(y, s, zero))
  }

  // ---------------------------------------------------------------------
  // Paths through a year's tree

  /** The nodes a day's keys lead to all exist. */
  predicate HasPath<T>(yn: YearNode<T>, k: Keys) {
    k.season in yn.seasons && k.month in yn.seasons[k.season].months &&
    k.week in yn.seasons[k.season].months[k.month].weeks &&
    k.weekDay in yn.seasons[k.season].months[k.month].weeks[k.week].days
  }

  function SeasonAt<T>(yn: YearNode<T>, k: Keys): SeasonNode<T>
    requires HasPath(yn, k)
  {
    yn.seasons[k.season]
  }

  function MonthAt<T>(yn: YearNode<T>, k: Keys): MonthNode<T>
    requires HasPath(yn, k)
  {
    SeasonAt(yn, k).months[k.month]
  }

  function WeekAt<T>(yn: YearNode<T>, k: Keys): WeekNode<T>
    requires HasPath(yn, k)
  {
    MonthAt(yn, k).weeks[k.week]
  }

  function DayAt<T>(yn: YearNode<T>, k: Keys): DayNode<T>
    requires HasPath(yn, k)
  {
    WeekAt(yn, k).days[k.weekDay]
  }

  /** Every day of year y has its path, ending in a node for that day. */
  ghost predicate Covers<T>(yn: YearNode<T>, y: int) {
    forall t :: Valid(t) && t.year == y ==> HasPath(yn, KeysOf(t)) && DayAt(yn, KeysOf(t)).day == t.day
  }

  /** Every path of the tree is the path of the day its leaf names. */
  ghost predicate OnlyDays<T>(yn: YearNode<T>, y: int) {
    forall k :: HasPath(yn, k) && k.year == y ==>
      var t := Date(y, k.month, DayAt(yn, k).day);
      Valid(t) && KeysOf(t) == k
  }

  /** Every total on every path is the zero value. */
  ghost predicate Zeroed<T>(yn: YearNode<T>, zero: T) {
    yn.total == zero &&
    forall k :: HasPath(yn, k) ==>
      SeasonAt(yn, k).total == zero && MonthAt(yn, k).total == zero &&
      WeekAt(yn, k).total == zero && DayAt(yn, k).total == zero
  }

  /** A fresh year files every day of the year under the keys
      GetKeysForAt gives it, files nothing else, and starts every total at
      the zero value. */
  lemma YearOfFacts<T>(y: int, zero: T)
    ensures Covers(YearOf(y, zero), y)
    ensures OnlyDays(YearOf(y, zero), y)
    ensures Zeroed(YearOf(y, zero), zero)
  {
    var yn := YearOf(y, zero);
    forall t | Valid(t) && t.year == y
      ensures HasPath(yn, KeysOf(t)) && DayAt(yn, KeysOf(t)).day == t.day
    {
      var m := t.month;
      QuarterMonths(Quarter(m));
      var first := Weekday(y, m, 1);
      FileDaysFacts(first, DaysInMonth(y, m), zero);
      assert FiledAt(FileDays(first, DaysInMonth(y, m), zero), first, t.day, zero);
    }
    forall k | HasPath(yn, k)
      ensures SeasonAt(yn, k).total == zero && MonthAt(yn, k).total == zero &&
              WeekAt(yn, k).total == zero && DayAt(yn, k).total == zero
      ensures k.year == y ==> Valid(Date(y, k.month, DayAt(yn, k).day)) && KeysOf(Date(y, k.month, DayAt(yn, k).day)) == k
    {
      var m := k.month;
      QuarterMonths(k.season);
      var first := Weekday(y, m, 1);
      var ws := FileDays(first, DaysInMonth(y, m), zero);
      FileDaysFacts(first, DaysInMonth(y, m), zero);
      assert MonthAt(yn, k).weeks == ws;
      assert HoldsOwnDay(ws, first, DaysInMonth(y, m), zero, k.week, k.weekDay);
    }
  }

  // ---------------------------------------------------------------------
  // The statistics

  /** Every year of every key files every day of that year. */
  ghost predicate WellFormed<K, T>(s: Store<K, T>) {
    forall key, y :: key in s && y in s[key] ==> Covers(s[key][y], y)
  }

  /** mustYear: the key's year map and the year's tree are created when
      missing; an existing year is never rebuilt, and no other key or year
      changes. */
  function MustYear<K(!new), T>(s: Store<K, T>, key: K, year: int, zero: T): (r: Store<K, T>)
    ensures key in r && year in r[key]
    ensures key in s && year in s[key] ==> r == s
    ensures !(key in s && year in s[key]) ==> r[key][year] == YearOf(year, zero)
    ensures forall k2 :: k2 != key ==> (k2 in r <==> k2 in s) && (k2 in s ==> r[k2] == s[k2])
    ensures forall y2 :: y2 != year ==> (y2 in r[key] <==> key in s && y2 in s[key])
    ensures forall y2 :: y2 != year && key in s && y2 in s[key] ==> r[key][y2] == s[key][y2]
    ensures WellFormed(s) ==> WellFormed(r)
  {
    var ys := if key in s then s[key] else map[];
    YearOfFacts(year, zero);
    if year in ys then s else s[key := ys[year := YearOf(year, zero)]]
  }

  /** Combines d into one day's total and its week's. */
  function BumpWeek<T, D>(wn: WeekNode<T>, wd: int, d: D, combine: (T, D) -> T): WeekNode<T>
    requires wd in wn.days
  {
    WeekNode(combine(wn.total, d), wn.days[wd := wn.days[wd].(total := combine(wn.days[wd].total, d))])
  }

  function BumpMonth<T, D>(mn: MonthNode<T>, w: int, wd: int, d: D, combine: (T, D) -> T): MonthNode<T>
    requires w in mn.weeks && wd in mn.weeks[w].days
  {
    MonthNode(combine(mn.total, d), mn.weeks[w := BumpWeek(mn.weeks[w], wd, d, combine)])
  }

  function BumpSeason<T, D>(sn: SeasonNode<T>, k: Keys, d: D, combine: (T, D) -> T): SeasonNode<T>
    requires k.month in sn.months && k.week in sn.months[k.month].weeks
    requires k.weekDay in sn.months[k.month].weeks[k.week].days
  {
    SeasonNode(combine(sn.total, d), sn.months[k.month := BumpMonth(sn.months[k.month], k.week, k.weekDay, d, combine)])
  }

  /** Whether two keys name the same node at each level of a year. */
  predicate SameSeason(k1: Keys, k2: Keys) {
    k1.season == k2.season
  }

  predicate SameMonth(k1: Keys, k2: Keys) {
    SameSeason(k1, k2) && k1.month == k2.month
  }

  predicate SameWeek(k1: Keys, k2: Keys) {
    SameMonth(k1, k2) && k1.week == k2.week
  }

  predicate SameDay(k1: Keys, k2: Keys) {
    SameWeek(k1, k2) && k1.weekDay == k2.weekDay
  }

  /** The five combines of SetDayData: d goes into the totals of the day,
      week, month, season and year on k's path and nowhere else; the shape
      of the tree and every node's day stay as they were. */
  function BumpYear<T, D>(yn: YearNode<T>, k: Keys, d: D, combine: (T, D) -> T): (r: YearNode<T>)
    requires HasPath(yn, k)
    ensures r.total == combine(yn.total, d)
    ensures forall k2 :: HasPath(r, k2) <==> HasPath(yn, k2)
    ensures forall k2 :: HasPath(yn, k2) ==> DayAt(r, k2).day == DayAt(yn, k2).day
    ensures forall k2 :: HasPath(yn, k2) ==>
              DayAt(r, k2).total == if SameDay(k2, k) then combine(DayAt(yn, k2).total, d) else DayAt(yn, k2).total
    ensures forall k2 :: HasPath(yn, k2) ==>
              WeekAt(r, k2).total == if SameWeek(k2, k) then combine(WeekAt(yn, k2).total, d) else WeekAt(yn, k2).total
    ensures forall k2 :: HasPath(yn, k2) ==>
              MonthAt(r, k2).total == if SameMonth(k2, k) then combine(MonthAt(yn, k2).total, d) else MonthAt(yn, k2).total
    ensures forall k2 :: HasPath(yn, k2) ==>
              SeasonAt(r, k2).total == if SameSeason(k2, k) then combine(SeasonAt(yn, k2).total, d) else SeasonAt(yn, k2).total
  {
    YearNode(combine(yn.total, d), yn.seasons[k.season := BumpSeason(yn.seasons[k.season], k, d, combine)])
  }

  /** Combining into totals keeps every day of the year on its path. */
  lemma BumpKeepsCovers<T, D>(yn: YearNode<T>, y: int, k: Keys, d: D, combine: (T, D) -> T)
    requires HasPath(yn, k) && Covers(yn, y)
    ensures Covers(BumpYear(yn, k, d, combine), y)
  {
    var r := BumpYear(yn, k, d, combine);
    forall t | Valid(t) && t.year == y
      ensures HasPath(r, KeysOf(t)) && DayAt(r, KeysOf(t)).day == t.day
    {
      assert HasPath(yn, KeysOf(t));
    }
  }

  /** Replacing one year's tree by another that files every day of that
      year keeps the statistics well formed. */
  lemma ReplaceYear<K, T>(s: Store<K, T>, key: K, y: int, yn: YearNode<T>)
    requires WellFormed(s) && key in s && Covers(yn, y)
    ensures WellFormed(s[key := s[key][y := yn]])
  {
    var r := s[key := s[key][y := yn]];
    forall k2, y2 | k2 in r && y2 in r[k2]
      ensures Covers(r[k2][y2], y2)
    {
      if k2 != key || y2 != y {
        assert r[k2][y2] == s[k2][y2];
      }
    }
  }

  /** Replacing the year MustYear made sure of changes no other key or
      year. */
  lemma MustYearFrame<K(!new), T>(s: Store<K, T>, key: K, y: int, zero: T, yn: YearNode<T>)
    ensures var s1 := MustYear(s, key, y, zero);
      var r := s1[key := s1[key][y := yn]];
      (forall k2 :: k2 != key ==> (k2 in r <==> k2 in s) && (k2 in s ==> r[k2] == s[k2])) &&
      (forall y2 :: y2 != y ==> (y2 in r[key] <==> key in s && y2 in s[key])) &&
      (forall y2 :: y2 != y && key in s && y2 in s[key] ==> r[key][y2] == s[key][y2])
  {
  }

  /** SetDayData: for a day GetKeysForAt finds, makes sure the key's year
      exists and combines d into the five totals on the day's path; for a
      day it does not find, changes nothing and reports false. No other key
      or year changes. */
  function SetDayData<K(!new), T, D>(s: Store<K, T>, key: K, at: Date, d: D, combine: (T, D) -> T, zero: T): (r: (Store<K, T>, bool))
    requires WellFormed(s) && 1 <= at.month <= 12
    ensures r.1 <==> Valid(at)
    ensures !r.1 ==> r.0 == s
    ensures r.1 ==> WellFormed(r.0) && key in r.0 && at.year in r.0[key]
    ensures r.1 ==> forall k2 :: k2 != key ==> (k2 in r.0 <==> k2 in s) && (k2 in s ==> r.0[k2] == s[k2])
    ensures r.1 ==> forall y2 :: y2 != at.year ==> (y2 in r.0[key] <==> key in s && y2 in s[key])
    ensures r.1 ==> forall y2 :: y2 != at.year && key in s && y2 in s[key] ==> r.0[key][y2] == s[key][y2]
    ensures r.1 ==> r.0[key][at.year] == BumpYear(MustYear(s, key, at.year, zero)[key][at.year], KeysOf(at), d, combine)
  {
    if !Valid(at) then (s, false)
    else
      var s1 := MustYear(s, key, at.year, zero);
      var k := KeysOf(at);
      var yn := s1[key][at.year];
      assert HasPath(yn, k);
      var yn2 := BumpYear(yn, k, d, combine);
      BumpKeepsCovers(yn, at.year, k, d, combine);
      ReplaceYear(s1, key, at.year, yn2);
      MustYearFrame(s, key, at.year, zero, yn2);
      (s1[key := s1[key][at.year := yn2]], true)
  }

  /** GetYearOn: the year's total, when the key has that year. */
  function GetYearOn<K, T>(s: Store<K, T>, key: K, at: Date): (r: Option<T>)
    ensures r.Some? <==> key in s && at.year in s[key]
  {
    if key in s && at.year in s[key] then Some(s[key][at.year].total) else None
  }

  /** GetSeasonOn: the total of the day's quarter, when GetKeysForAt finds
      the day and the key has its year. */
  function GetSeasonOn<K, T>(s: Store<K, T>, key: K, at: Date): (r: Option<T>)
    requires WellFormed(s) && 1 <= at.month <= 12
    ensures r.Some? <==> Valid(at) && key in s && at.year in s[key]
  {
    if Valid(at) && key in s && at.year in s[key] then
      assert HasPath(s[key][at.year], KeysOf(at));
      Some(SeasonAt(s[key][at.year], KeysOf(at)).total)
    else None
  }

  /** GetMonthOn: the total of the day's month. */
  function GetMonthOn<K, T>(s: Store<K, T>, key: K, at: Date): (r: Option<T>)
    requires WellFormed(s) && 1 <= at.month <= 12
    ensures r.Some? <==> Valid(at) && key in s && at.year in s[key]
  {
    if Valid(at) && key in s && at.year in s[key] then
      assert HasPath(s[key][at.year], KeysOf(at));
      Some(MonthAt(s[key][at.year], KeysOf(at)).total)
    else None
  }

  /** GetWeekOn: the total of the day's week of the month. */
  function GetWeekOn<K, T>(s: Store<K, T>, key: K, at: Date): (r: Option<T>)
    requires WellFormed(s) && 1 <= at.month <= 12
    ensures r.Some? <==> Valid(at) && key in s && at.year in s[key]
  {
    if Valid(at) && key in s && at.year in s[key] then
      assert HasPath(s[key][at.year], KeysOf(at));
      Some(WeekAt(s[key][at.year], KeysOf(at)).total)
    else None
  }

  /** GetDayOn: the day's own total. */
  function GetDayOn<K, T>(s: Store<K, T>, key: K, at: Date): (r: Option<T>)
    requires WellFormed(s) && 1 <= at.month <= 12
    ensures r.Some? <==> Valid(at) && key in s && at.year in s[key]
  {
    if Valid(at) && key in s && at.year in s[key] then
      assert HasPath(s[key][at.year], KeysOf(at));
      Some(DayAt(s[key][at.year], KeysOf(at)).total)
    else None
  }

  // ---------------------------------------------------------------------
  // Reading back what SetDayData wrote

  /** Two days of one month with the same week and weekday are the same
      day. */
  lemma SameKeysSameDay(t1: Date, t2: Date)
    requires Valid(t1) && Valid(t2) && t1.year == t2.year && SameDay(KeysOf(t1), KeysOf(t2))
    ensures t1 == t2
  {
    if t1.day != t2.day {
      KeysInjective(Weekday(t1.year, t1.month, 1), t1.day, t2.day);
    }
  }

  /** After SetDayData, GetDayOn gives the combined total for that day and
      what it gave before for every other key and day (a year SetDayData
      had to create reads as freshly built). */
  lemma SetThenGetDay<K(!new), T, D>(s: Store<K, T>, key: K, at: Date, d: D, combine: (T, D) -> T, zero: T, key2: K, at2: Date)
    requires WellFormed(s) && Valid(at) && 1 <= at2.month <= 12
    ensures var s1 := MustYear(s, key, at.year, zero);
            var r := SetDayData(s, key, at, d, combine, zero).0;
            GetDayOn(r, key2, at2) ==
              if key2 == key && at2 == at then Some(combine(GetDayOn(s1, key, at).value, d))
              else GetDayOn(s1, key2, at2)
  {
    if key2 == key && at2.year == at.year && Valid(at2) {
      SetThenGetSameYearDay(s, key, at, d, combine, zero, at2);
    } else {
      SetThenGetOtherYearDay(s, key, at, d, combine, zero, key2, at2);
    }
  }

  /** SetThenGetDay within the year SetDayData wrote. */
  lemma SetThenGetSameYearDay<K(!new), T, D>(s: Store<K, T>, key: K, at: Date, d: D, combine: (T, D) -> T, zero: T, at2: Date)
    requires WellFormed(s) && Valid(at) && Valid(at2) && at2.year == at.year
    ensures var s1 := MustYear(s, key, at.year, zero);
            var r := SetDayData(s, key, at, d, combine, zero).0;
            GetDayOn(r, key, at2) ==
              if at2 == at then Some(combine(GetDayOn(s1, key, at).value, d)) else GetDayOn(s1, key, at2)
  {
    var s1 := MustYear(s, key, at.year, zero);
    var yn := s1[key][at.year];
    assert HasPath(yn, KeysOf(at2));
    if SameDay(KeysOf(at2), KeysOf(at)) {
      SameKeysSameDay(at2, at);
    }
  }

  /** SetThenGetDay for another key or another year: nothing changed. */
  lemma SetThenGetOtherYearDay<K(!new), T, D>(s: Store<K, T>, key: K, at: Date, d: D, combine: (T, D) -> T, zero: T, key2: K, at2: Date)
    requires WellFormed(s) && Valid(at) && 1 <= at2.month <= 12
    requires !(key2 == key && at2.year == at.year && Valid(at2))
    ensures var s1 := MustYear(s, key, at.year, zero);
            GetDayOn(SetDayData(s, key, at, d, combine, zero).0, key2, at2) == GetDayOn(s1, key2, at2)
  {
  }

  /** After SetDayData, GetWeekOn gives the combined total for every day
      of the same week of the same month, and what it gave before for any
      other day or key. */
  lemma SetThenGetWeek<K(!new), T, D>(s: Store<K, T>, key: K, at: Date, d: D, combine: (T, D) -> T, zero: T, key2: K, at2: Date)
    requires WellFormed(s) && Valid(at) && 1 <= at2.month <= 12
    ensures var s1 := MustYear(s, key, at.year, zero);
            var r := SetDayData(s, key, at, d, combine, zero).0;
            GetWeekOn(r, key2, at2) ==
              if key2 == key && at2.year == at.year && Valid(at2) && SameWeek(KeysOf(at2), KeysOf(at))
              then Some(combine(GetWeekOn(s1, key, at2).value, d))
              else GetWeekOn(s1, key2, at2)
  {
    var s1 := MustYear(s, key, at.year, zero);
    if key2 == key && at2.year == at.year && Valid(at2) {
      assert HasPath(s1[key][at.year], KeysOf(at2));
    }
  }

  /** After SetDayData, GetMonthOn gives the combined total for every day
      of the same month, and what it gave before otherwise. */
  lemma SetThenGetMonth<K(!new), T, D>(s: Store<K, T>, key: K, at: Date, d: D, combine: (T, D) -> T, zero: T, key2: K, at2: Date)
    requires WellFormed(s) && Valid(at) && 1 <= at2.month <= 12
    ensures var s1 := MustYear(s, key, at.year, zero);
            var r := SetDayData(s, key, at, d, combine, zero).0;
            GetMonthOn(r, key2, at2) ==
              if key2 == key && at2.year == at.year && Valid(at2) && at2.month == at.month
              then Some(combine(GetMonthOn(s1, key, at2).value, d))
              else GetMonthOn(s1, key2, at2)
  {
    var s1 := MustYear(s, key, at.year, zero);
    if key2 == key && at2.year == at.year && Valid(at2) {
      assert HasPath(s1[key][at.year], KeysOf(at2));
    }
  }

  /** After SetDayData, GetSeasonOn gives the combined total for every day
      of the same quarter, and what it gave before otherwise. */
  lemma SetThenGetSeason<K(!new), T, D>(s: Store<K, T>, key: K, at: Date, d: D, combine: (T, D) -> T, zero: T, key2: K, at2: Date)
    requires WellFormed(s) && Valid(at) && 1 <= at2.month <= 12
    ensures var s1 := MustYear(s, key, at.year, zero);
            var r := SetDayData(s, key, at, d, combine, zero).0;
            GetSeasonOn(r, key2, at2) ==
              if key2 == key && at2.year == at.year && Valid(at2) && Quarter(at2.month) == Quarter(at.month)
              then Some(combine(GetSeasonOn(s1, key, at2).value, d))
              else GetSeasonOn(s1, key2, at2)
  {
    var s1 := MustYear(s, key, at.year, zero);
    if key2 == key && at2.year == at.year && Valid(at2) {
      assert HasPath(s1[key][at.year], KeysOf(at2));
    }
  }

  /** After SetDayData, GetYearOn gives the combined total for the day's
      year, and what it gave before otherwise. */
  lemma SetThenGetYear<K(!new), T, D>(s: Store<K, T>, key: K, at: Date, d: D, combine: (T, D) -> T, zero: T, key2: K, at2: Date)
    requires WellFormed(s) && Valid(at)
    ensures var s1 := MustYear(s, key, at.year, zero);
            var r := SetDayData(s, key, at, d, combine, zero).0;
            GetYearOn(r, key2, at2) ==
              if key2 == key && at2.year == at.year then Some(combine(GetYearOn(s1, key, at2).value, d))
              else GetYearOn(s1, key2, at2)
  {
  }

  /** A year SetDayData has to create reads as zero at every level for
      every day of that year. */
  lemma FreshYearReadsZero<K(!new), T>(s: Store<K, T>, key: K, zero: T, at: Date)
    requires WellFormed(s) && Valid(at) && !(key in s && at.year in s[key])
    ensures var s1 := MustYear(s, key, at.year, zero);
            GetDayOn(s1, key, at) == Some(zero) && GetWeekOn(s1, key, at) == Some(zero) &&
            GetMonthOn(s1, key, at) == Some(zero) && GetSeasonOn(s1, key, at) == Some(zero) &&
            GetYearOn(s1, key, at) == Some(zero)
  {
    YearOfFacts(at.year, zero);
    assert HasPath(YearOf(at.year, zero), KeysOf(at));
  }
}
