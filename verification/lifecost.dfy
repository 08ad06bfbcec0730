/** The consumption statistics' Combine: a day's data either adds to the
    four counters of a total, replaces them, or (for any other type) leaves
    them as they were. Combine returns a new total; the one it is given is
    a value here and cannot change. */
module LifeCost {
  import opened Calendar
  import opened MemDateKeys
  import MemDate
  import opened Wrappers

  const ListCostDataNon := 0
  const ListCostDataAdd := 1
  const ListCostDataReplace := 2

  datatype TotalData = TotalData(consumeCount: int, consumeAmount: int, earnCount: int, earnAmount: int)

  /** One record of data: its type `t` and the four counters. */
  datatype CostData = CostData(t: int, consumeCount: int, consumeAmount: int, earnCount: int, earnAmount: int)

  /** The four counters of a record, as a total. */
  function Counters(d: CostData): TotalData {
    TotalData(d.consumeCount, d.consumeAmount, d.earnCount, d.earnAmount)
  }

  /** Field-wise addition of totals. */
  function AddTotals(a: TotalData, b: TotalData): TotalData {
    TotalData(a.consumeCount + b.consumeCount, a.consumeAmount + b.consumeAmount,
              a.earnCount + b.earnCount, a.earnAmount + b.earnAmount)
  }

  const Zero := TotalData(0, 0, 0, 0)

  /** LifeCostDataTrans.Combine. */
  function Combine(total: TotalData, d: CostData): (r: TotalData)
    ensures d.t == ListCostDataAdd ==> r == AddTotals(total, Counters(d))
    ensures d.t == ListCostDataReplace ==> r == Counters(d)
    ensures d.t != ListCostDataAdd && d.t != ListCostDataReplace ==> r == total
  {
    var r := total;
    if d.t == ListCostDataAdd then
      r.(consumeCount := r.consumeCount + d.consumeCount, consumeAmount := r.consumeAmount + d.consumeAmount,
         earnCount := r.earnCount + d.earnCount, earnAmount := r.earnAmount + d.earnAmount)
    else if d.t == ListCostDataReplace then
      r.(consumeCount := d.consumeCount, consumeAmount := d.consumeAmount,
         earnCount := d.earnCount, earnAmount := d.earnAmount)
    else r
  }

  /** Added records commute: the order two of them arrive in does not
      matter. */
  lemma AddsCommute(total: TotalData, a: CostData, b: CostData)
    requires a.t == ListCostDataAdd && b.t == ListCostDataAdd
    ensures Combine(Combine(total, a), b) == Combine(Combine(total, b), a)
  {
  }

  /** A replacing record wipes out everything combined before it. */
  lemma ReplaceForgets(t1: TotalData, t2: TotalData, b: CostData)
    requires b.t == ListCostDataReplace
    ensures Combine(t1, b) == Combine(t2, b)
  {
  }

  /** The sum of the counters of a run of records, the reference for a run
      of added records. */
  function SumCounters(ds: seq<CostData>): TotalData {
    if |ds| == 0 then Zero else AddTotals(SumCounters(ds[..|ds| - 1]), Counters(ds[|ds| - 1]))
  }

  /** Combining records one after another. */
  function CombineAll(total: TotalData, ds: seq<CostData>): TotalData {
    if |ds| == 0 then total else Combine(CombineAll(total, ds[..|ds| - 1]), ds[|ds| - 1])
  }

  /** A run of added records adds up their counters. */
  lemma {:induction false} AddedRunSums(total: TotalData, ds: seq<CostData>)
    requires forall i :: 0 <= i < |ds| ==> ds[i].t == ListCostDataAdd
    ensures CombineAll(total, ds) == AddTotals(total, SumCounters(ds))
    decreases |ds|
  {
    if |ds| > 0 {
      AddedRunSums(total, ds[..|ds| - 1]);
    }
  }

  /** After a run, the total is what the last replacing record set plus
      the records added after it, whatever came before. */
  lemma {:induction false} LastReplaceWins(t1: TotalData, t2: TotalData, ds: seq<CostData>, j: int)
    requires 0 <= j < |ds| && ds[j].t == ListCostDataReplace
    ensures CombineAll(t1, ds) == CombineAll(t2, ds)
    decreases |ds|
  {
    if j < |ds| - 1 {
      LastReplaceWins(t1, t2, ds[..|ds| - 1], j);
    }
  }

  /** Records of any other type change nothing. */
  lemma {:induction false} OthersIgnored(total: TotalData, ds: seq<CostData>)
    requires forall i :: 0 <= i < |ds| ==> ds[i].t != ListCostDataAdd && ds[i].t != ListCostDataReplace
    ensures CombineAll(total, ds) == total
    decreases |ds|
  {
    if |ds| > 0 {
      OthersIgnored(total, ds[..|ds| - 1]);
    }
  }

  /** Recording an added record for a day with the date statistics: every
      level on the day's path then holds its old total plus the record's
      counters. */
  lemma DayAddsUp(s: MemDate.Store<string, TotalData>, key: string, at: Date, d: CostData)
    requires MemDate.WellFormed(s) && Valid(at) && d.t == ListCostDataAdd
    ensures var s1 := MemDate.MustYear(s, key, at.year, Zero);
            var r := MemDate.SetDayData(s, key, at, d, Combine, Zero).0;
            MemDate.GetDayOn(r, key, at) == Some(AddTotals(MemDate.GetDayOn(s1, key, at).value, Counters(d))) &&
            MemDate.GetYearOn(r, key, at) == Some(AddTotals(MemDate.GetYearOn(s1, key, at).value, Counters(d)))
  {
    MemDate.SetThenGetDay(s, key, at, d, Combine, Zero, key, at);
    MemDate.SetThenGetYear(s, key, at, d, Combine, Zero, key, at);
  }
}
