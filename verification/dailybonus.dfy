/** The daily bonus: per owner a kept bonus and a bonus for one day. A
    day's bonus left over when the date moves on is added to the kept
    bonus; consumption draws on the day's bonus first. `today` is the date
    string the clock gives for "now" (the clock itself is not modelled). */
module DailyBonus {
  import opened Wrappers

  /** The stored record: the date the day's bonus was earned on, the kept
      bonus and the day's bonus. */
  datatype Daily = Daily(date: string, bonus: int, daily: int)

  type Bonuses = map<nat, Daily>

  /** What EarnDailyBonus grants for a day. */
  const EarnedDaily := 5

  function Total(d: Daily): int {
    d.bonus + d.daily
  }

  /** Neither part of the record is negative. */
  predicate NonNeg(d: Daily) {
    d.bonus >= 0 && d.daily >= 0
  }

  /** The record of `id`, or a fresh one from the new-id callback's
      reply `init` (a store without a callback is `Ok((0, 0))`); a
      callback error is passed on. */
  function Entry(st: Bonuses, id: nat, init: Result<(int, int)>): (r: Result<Daily>)
    ensures id in st ==> r == Ok(st[id])
    ensures id !in st && init.Ok? ==> r == Ok(Daily("", init.value.0, init.value.1))
    ensures r.Err? <==> id !in st && init.Err?
  {
    if id in st then Ok(st[id])
    else match init
      case Err(e) => Err(e)
      case Ok(v) => Ok(Daily("", v.0, v.1))
  }

  /** A day's bonus from another date moves to the kept bonus. */
  function Rollover(d: Daily, today: string): (r: Daily)
    ensures Total(r) == Total(d)
    ensures r.date == d.date
    ensures r.daily > 0 ==> r.date == today
    ensures d.date == today || d.daily <= 0 ==> r == d
    ensures r.daily <= d.daily && r.bonus >= d.bonus
  {
    if d.daily > 0 && d.date != today then d.(bonus := d.bonus + d.daily, daily := 0) else d
  }

  lemma RolloverIdempotent(d: Daily, today: string)
    ensures Rollover(Rollover(d, today), today) == Rollover(d, today)
  {
  }

  /** GetAllBonus's results: the store after the change, the kept and the
      day's bonus, and the error. */
  datatype Read = Read(store: Bonuses, bonus: int, todayBonus: int, err: Option<Code>)

  /** GetAllBonus: rolls the record over, stores it (creating it for a new
      id) and reads both bonuses. */
  function GetAllBonus(st: Bonuses, id: nat, today: string, init: Result<(int, int)>): (r: Read)
    ensures r.err.Some? ==> id !in st && init.Err? && r == Read(st, 0, 0, Some(init.code))
    ensures r.err.None? <==> Entry(st, id, init).Ok?
    ensures r.err.None? ==> r.store == st[id := Rollover(Entry(st, id, init).value, today)]
    ensures r.err.None? ==> r.bonus == r.store[id].bonus && r.todayBonus == r.store[id].daily
    ensures r.err.None? ==> r.bonus + r.todayBonus == Total(Entry(st, id, init).value)
    ensures r.err.None? && r.todayBonus > 0 ==> r.store[id].date == today
  {
    match Entry(st, id, init)
    case Err(e) => Read(st, 0, 0, Some(e))
    case Ok(d) =>
      var d2 := Rollover(d, today);
      Read(st[id := d2], d2.bonus, d2.daily, None)
  }

  /** Reading twice on one day reads the same and changes nothing more. */
  lemma GetAllBonusStable(st: Bonuses, id: nat, today: string, init: Result<(int, int)>, init2: Result<(int, int)>)
    ensures var r := GetAllBonus(st, id, today, init);
            r.err.None? ==>
              var r2 := GetAllBonus(r.store, id, today, init2);
              r2 == Read(r.store, r.bonus, r.todayBonus, None)
  {
  }

  /** The result of a store change: the new store and the error, if any. */
  datatype Change = Change(store: Bonuses, err: Option<Code>)

  /** ConsumeBonus: takes `bonusValue` from the kept and `todayValue` from
      the day's bonus, without a rollover; OutOfRange, with nothing
      changed, when either part is short. The check only compares, so a
      negative value passes it and adds to that part. */
  function ConsumeBonus(st: Bonuses, id: nat, bonusValue: int, todayValue: int, init: Result<(int, int)>): (r: Change)
    ensures r.err.Some? ==> r.store == st
    ensures r.err.None? <==>
      Entry(st, id, init).Ok? && Entry(st, id, init).value.daily >= todayValue && Entry(st, id, init).value.bonus >= bonusValue
    ensures Entry(st, id, init).Ok? && r.err.Some? ==> r.err == Some(OutOfRange)
    ensures r.err.None? ==>
      var d := Entry(st, id, init).value;
      r.store == st[id := d.(bonus := d.bonus - bonusValue, daily := d.daily - todayValue)]
  {
    match Entry(st, id, init)
    case Err(e) => Change(st, Some(e))
    case Ok(d) =>
      if d.daily < todayValue || d.bonus < bonusValue then Change(st, Some(OutOfRange))
      else Change(st[id := d.(bonus := d.bonus - bonusValue, daily := d.daily - todayValue)], None)
  }

  /** Non-negative values never raise a balance and keep both parts
      non-negative: the store's own safety argument. */
  lemma ConsumeBonusLowers(st: Bonuses, id: nat, bonusValue: int, todayValue: int, init: Result<(int, int)>)
    requires bonusValue >= 0 && todayValue >= 0
    requires Entry(st, id, init).Ok? && Entry(st, id, init).value.bonus >= 0 && Entry(st, id, init).value.daily >= 0
    ensures var r := ConsumeBonus(st, id, bonusValue, todayValue, init);
            r.err.None? ==>
              0 <= r.store[id].bonus <= Entry(st, id, init).value.bonus &&
              0 <= r.store[id].daily <= Entry(st, id, init).value.daily &&
              Total(r.store[id]) == Total(Entry(st, id, init).value) - bonusValue - todayValue
  {
  }

  /** HasDailyBonus's results. */
  datatype Flag = Flag(store: Bonuses, has: bool, err: Option<Code>)

  /** HasDailyBonus: rolls the record over, stores it, and tells whether the
      day's bonus was earned today. */
  function HasDailyBonus(st: Bonuses, id: nat, today: string, init: Result<(int, int)>): (r: Flag)
    ensures r.err.Some? ==> r.store == st && !r.has
    ensures r.err.None? <==> Entry(st, id, init).Ok?
    ensures r.err.None? ==> (r.has <==> Entry(st, id, init).value.date == today)
    ensures r.err.None? ==> r.store == GetAllBonus(st, id, today, init).store
  {
    match Entry(st, id, init)
    case Err(e) => Flag(st, false, Some(e))
    case Ok(d) => Flag(st[id := Rollover(d, today)], d.date == today, None)
  }

  /** EarnDailyBonus: rolls the record over; once per date it sets the
      day's bonus to the earned amount and the date to today, otherwise it
      reports AlreadyExists (the rolled-over record is stored either way). */
  function EarnDailyBonus(st: Bonuses, id: nat, today: string, init: Result<(int, int)>): (r: Change)
    ensures r.err.None? <==> Entry(st, id, init).Ok? && Entry(st, id, init).value.date != today
    ensures Entry(st, id, init).Ok? && r.err.Some? ==> r.err == Some(AlreadyExists)
    ensures r.err.None? ==>
      r.store == st[id := Daily(today, Rollover(Entry(st, id, init).value, today).bonus, EarnedDaily)]
    ensures Entry(st, id, init).Err? ==> r.store == st
  {
    match Entry(st, id, init)
    case Err(e) => Change(st, Some(e))
    case Ok(d) =>
      var d2 := Rollover(d, today);
      if d2.date != today then Change(st[id := d2.(daily := EarnedDaily, date := today)], None)
      else Change(st[id := d2], Some(AlreadyExists))
  }

  /** The day's bonus can be earned once per date: after an earn, a second
      one the same day is refused, HasDailyBonus says yes and the earned
      amount is there to read. */
  lemma EarnOncePerDay(st: Bonuses, id: nat, today: string, init: Result<(int, int)>, init2: Result<(int, int)>)
    requires EarnDailyBonus(st, id, today, init).err.None?
    ensures var s := EarnDailyBonus(st, id, today, init).store;
            EarnDailyBonus(s, id, today, init2) == Change(s, Some(AlreadyExists)) &&
            HasDailyBonus(s, id, today, init2).has &&
            GetAllBonus(s, id, today, init2).todayBonus == EarnedDaily
  {
  }

  /** The operator's ConsumeAmount as written: for n beyond the day's
      bonus it passes `bonusValue -= n`, a negative amount, to ConsumeBonus.
      The store after the rollover read is kept whatever follows. */
  function ConsumeAmountAsWritten(st: Bonuses, id: nat, n: int, today: string, init: Result<(int, int)>): (r: Change)
    ensures n <= 0 ==> r == Change(st, None)
    ensures n > 0 && Entry(st, id, init).Ok? ==>
      (r.err == Some(ResourceExhausted) <==> n > Total(Entry(st, id, init).value))
  {
    if n <= 0 then Change(st, None)
    else
      var rd := GetAllBonus(st, id, today, init);
      if rd.err.Some? then Change(rd.store, rd.err)
      else if n > rd.todayBonus + rd.bonus then Change(rd.store, Some(ResourceExhausted))
      else if n <= rd.todayBonus then ConsumeBonus(rd.store, id, 0, n, init)
      else ConsumeBonus(rd.store, id, 0 - (n - rd.todayBonus), rd.todayBonus, init)
  }

  /** The discrepancy: with no day's bonus and a kept bonus of 10, consuming
      3 succeeds and leaves a kept bonus of 13. */
  lemma ConsumeAmountGrowsBonus()
    ensures var st := map[1 := Daily("20240101", 10, 0)];
            var r := ConsumeAmountAsWritten(st, 1, 3, "20240101", Ok((0, 0)));
            r.err.None? && r.store[1].bonus == 13 && Total(r.store[1]) == Total(st[1]) + 3
  {
  }

  /** ConsumeAmount as intended: the day's bonus first, the rest from the
      kept bonus; ResourceExhausted when both together do not cover n. */
  function ConsumeAmount(st: Bonuses, id: nat, n: int, today: string, init: Result<(int, int)>): (r: Change)
    ensures n <= 0 ==> r == Change(st, None)
    ensures n > 0 && Entry(st, id, init).Ok? && NonNeg(Entry(st, id, init).value) ==>
      (r.err.None? <==> n <= Total(Entry(st, id, init).value))
    ensures n > 0 && Entry(st, id, init).Ok? && r.err.Some? ==> r.err.value in {ResourceExhausted, OutOfRange}
    ensures n > 0 && r.err.None? ==>
      Entry(st, id, init).Ok? && id in r.store &&
      Total(r.store[id]) == Total(Entry(st, id, init).value) - n &&
      var rolled := Rollover(Entry(st, id, init).value, today);
      r.store[id].bonus == rolled.bonus - (if n <= rolled.daily then 0 else n - rolled.daily)
    ensures n > 0 && r.err.None? && NonNeg(Entry(st, id, init).value) ==> NonNeg(r.store[id])
    ensures forall o :: o in st && o != id ==> o in r.store && r.store[o] == st[o]
  {
    if n <= 0 then Change(st, None)
    else
      var rd := GetAllBonus(st, id, today, init);
      if rd.err.Some? then Change(rd.store, rd.err)
      else if n > rd.todayBonus + rd.bonus then Change(rd.store, Some(ResourceExhausted))
      else if n <= rd.todayBonus then ConsumeBonus(rd.store, id, 0, n, init)
      else ConsumeBonus(rd.store, id, n - rd.todayBonus, rd.todayBonus, init)
  }

  /** The operator's best-effort consumption: what the store can cover, up
      to n, the day's bonus first. */
  datatype Tried = Tried(store: Bonuses, consumed: int, err: Option<Code>)

  /** TryConsumeAmount: nothing to consume gives 0; otherwise it takes
      min(n, total), the day's bonus first. A failed read or a refused
      change reports n as consumed together with the error. */
  function TryConsumeAmount(st: Bonuses, id: nat, n: int, today: string, init: Result<(int, int)>): (r: Tried)
    ensures n <= 0 ==> r == Tried(st, 0, None)
    ensures n > 0 && r.err.Some? ==> r.consumed == n
    ensures n > 0 && Entry(st, id, init).Ok? && NonNeg(Entry(st, id, init).value) ==>
      var total := Total(Entry(st, id, init).value);
      r.err.None? && id in r.store &&
      r.consumed == (if n <= total then n else total) &&
      Total(r.store[id]) == total - r.consumed && NonNeg(r.store[id])
  {
    if n <= 0 then Tried(st, 0, None)
    else
      var rd := GetAllBonus(st, id, today, init);
      if rd.err.Some? then Tried(rd.store, n, rd.err)
      else if rd.bonus + rd.todayBonus <= 0 then Tried(rd.store, 0, None)
      else
        var todayValue := if n <= rd.todayBonus then n else rd.todayBonus;
        var m := n - todayValue;
        var bonusValue := if n <= rd.todayBonus then 0 else if m > rd.bonus then rd.bonus else m;
        var c := ConsumeBonus(rd.store, id, bonusValue, todayValue, init);
        if c.err.Some? then Tried(c.store, n, c.err)
        else Tried(c.store, todayValue + bonusValue, None)
  }

  /** A negative kept bonus is not drawn on when the day's bonus covers the
      request; the store's check then compares that bonus with 0 and
      refuses, and n is reported together with OutOfRange. */
  lemma TryNegativeKept()
    ensures TryConsumeAmount(map[1 := Daily("d", -1, 5)], 1, 2, "d", Ok((0, 0))) ==
            Tried(map[1 := Daily("d", -1, 5)], 2, Some(OutOfRange))
  {
    var st := map[1 := Daily("d", -1, 5)];
    assert Entry(st, 1, Ok((0, 0))) == Ok(Daily("d", -1, 5));
    assert st[1 := Daily("d", -1, 5)] == st;
    var rd := GetAllBonus(st, 1, "d", Ok((0, 0)));
    assert rd == Read(st, -1, 5, None);
    assert ConsumeBonus(st, 1, 0, 2, Ok((0, 0))) == Change(st, Some(OutOfRange));
  }

  /** The scenario's two consecutive dates, in the store's date format. */
  const Day1: string := "20240101"
  const Day2: string := "20240102"

  /** The library's own scenario, step by step: earn on one day, consume
      2, carry the rest into the next day, earn again (a second earn is
      refused), then best-effort consumptions of 1, 9 and 1 yield 1, 7 and
      0 and leave nothing. */
  lemma DailyScenarioFirstDay()
    ensures EarnDailyBonus(map[], 10, Day1, Ok((0, 0))) == Change(map[10 := Daily(Day1, 0, 5)], None)
    ensures ConsumeAmount(map[10 := Daily(Day1, 0, 5)], 10, 2, Day1, Ok((0, 0))) ==
            Change(map[10 := Daily(Day1, 0, 3)], None)
  {
  }

  /** The two dates of the scenario differ (in their last digit). */
  lemma DatesDiffer()
    ensures Day1 != Day2
  {
    assert Day1[7] == '1' && Day2[7] == '2';
  }

  lemma DailyScenarioRollover()
    ensures GetAllBonus(map[10 := Daily(Day1, 0, 3)], 10, Day2, Ok((0, 0))) ==
            Read(map[10 := Daily(Day1, 3, 0)], 3, 0, None)
  {
    DatesDiffer();
    var st := map[10 := Daily(Day1, 0, 3)];
    ReadRollsOver(st, 10, Day2, Ok((0, 0)));
    assert st[10 := Daily(Day1, 3, 0)] == map[10 := Daily(Day1, 3, 0)];
  }

  /** Reading on a later date moves a stored day's bonus into the kept
      bonus, and the read reports the sum as kept and nothing for today. */
  lemma ReadRollsOver(st: Bonuses, id: nat, today: string, init: Result<(int, int)>)
    requires id in st && st[id].daily > 0 && st[id].date != today
    ensures var d := st[id];
      GetAllBonus(st, id, today, init) ==
        Read(st[id := d.(bonus := d.bonus + d.daily, daily := 0)], d.bonus + d.daily, 0, None)
  {
  }

  lemma DailyScenarioEarnAgain()
    ensures EarnDailyBonus(map[10 := Daily(Day1, 3, 0)], 10, Day2, Ok((0, 0))) ==
            Change(map[10 := Daily(Day2, 3, 5)], None)
    ensures EarnDailyBonus(map[10 := Daily(Day2, 3, 5)], 10, Day2, Ok((0, 0))).err == Some(AlreadyExists)
  {
    DatesDiffer();
    var st := map[10 := Daily(Day1, 3, 0)];
    assert Entry(st, 10, Ok((0, 0))) == Ok(Daily(Day1, 3, 0));
    assert Rollover(Daily(Day1, 3, 0), Day2) == Daily(Day1, 3, 0);
    assert st[10 := Daily(Day2, 3, 5)] == map[10 := Daily(Day2, 3, 5)];
    var st2 := map[10 := Daily(Day2, 3, 5)];
    assert Entry(st2, 10, Ok((0, 0))) == Ok(Daily(Day2, 3, 5));
  }

  lemma DailyScenarioTryOne()
    ensures TryConsumeAmount(map[10 := Daily(Day2, 3, 5)], 10, 1, Day2, Ok((0, 0))) ==
            Tried(map[10 := Daily(Day2, 3, 4)], 1, None)
  {
    var st := map[10 := Daily(Day2, 3, 5)];
    assert Entry(st, 10, Ok((0, 0))) == Ok(Daily(Day2, 3, 5));
    var rd := GetAllBonus(st, 10, Day2, Ok((0, 0)));
    assert rd == Read(st, 3, 5, None);
    assert ConsumeBonus(st, 10, 0, 1, Ok((0, 0))) == Change(map[10 := Daily(Day2, 3, 4)], None);
  }

  lemma DailyScenarioTryNine()
    ensures TryConsumeAmount(map[10 := Daily(Day2, 3, 4)], 10, 9, Day2, Ok((0, 0))) ==
            Tried(map[10 := Daily(Day2, 0, 0)], 7, None)
  {
    var st := map[10 := Daily(Day2, 3, 4)];
    assert Entry(st, 10, Ok((0, 0))) == Ok(Daily(Day2, 3, 4));
    var rd := GetAllBonus(st, 10, Day2, Ok((0, 0)));
    assert rd == Read(st, 3, 4, None);
    assert ConsumeBonus(st, 10, 3, 4, Ok((0, 0))) == Change(map[10 := Daily(Day2, 0, 0)], None);
  }

  lemma DailyScenarioTryEmpty()
    ensures TryConsumeAmount(map[10 := Daily(Day2, 0, 0)], 10, 1, Day2, Ok((0, 0))) ==
            Tried(map[10 := Daily(Day2, 0, 0)], 0, None)
  {
    var st := map[10 := Daily(Day2, 0, 0)];
    assert Entry(st, 10, Ok((0, 0))) == Ok(Daily(Day2, 0, 0));
    assert Rollover(Daily(Day2, 0, 0), Day2) == Daily(Day2, 0, 0);
    assert st[10 := Daily(Day2, 0, 0)] == st;
    var rd := GetAllBonus(st, 10, Day2, Ok((0, 0)));
    assert rd.err.None? && rd.store == st;
    assert rd.bonus + rd.todayBonus == 0;
  }
}
