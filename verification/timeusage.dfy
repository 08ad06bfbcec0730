/** Status-interval accounting: a log of status updates, each stamped with
    the time it was made, and a statistic that splits a time window among
    the statuses in force. The clock reading of Update is a field of each
    entry, given by the caller; times are nanosecond counts. */
module TimeUsage {
  import opened Wrappers
  import opened Sums

  /** One Update: the status, its data and when it was made. */
  datatype Entry<X> = Entry(status: int, d: X, at: int)

  /** A status's share of the window and its merged data. */
  datatype Usage<X> = Usage(duration: int, d: X)

  /** MergeReplace keeps the newer data, MergeIgnore the older. */
  function MergeReplace<X>(dOld: X, dNew: X): X { dNew }
  function MergeIgnore<X>(dOld: X, dNew: X): X { dOld }

  /** A missing merge function means MergeReplace: the newer data wins. */
  function Resolve<X>(md: Option<(X, X) -> X>): (X, X) -> X {
    if md.Some? then md.value else MergeReplace
  }

  /** fnD plus the duration added to its result: the first charge of a
      status stores the data, later ones merge it into what is there. */
  function Charge<X>(ds: map<int, Usage<X>>, md: (X, X) -> X, status: int, data: X, dur: int): map<int, Usage<X>> {
    if status in ds then ds[status := Usage(ds[status].duration + dur, md(ds[status].d, data))]
    else ds[status := Usage(dur, data)]
  }

  /** A charge adds the status if it was missing, gives it the duration on
      top of what it had, stores the data on a first charge, and leaves
      every other status as it was. */
  lemma ChargeFacts<X>(ds: map<int, Usage<X>>, md: (X, X) -> X, status: int, data: X, dur: int)
    ensures var r := Charge(ds, md, status, data, dur);
      && r.Keys == ds.Keys + {status}
      && (forall s :: s in ds && s != status ==> r[s] == ds[s])
      && r[status].duration == (if status in ds then ds[status].duration else 0) + dur
      && (status !in ds ==> r[status].d == data)
  {
  }

  /** Charging a status twice without a merge function leaves it with the
      newer data, as MergeReplace does. */
  lemma NilMergeReplaces<X>(ds: map<int, Usage<X>>, status: int, a: X, b: X, t1: int, t2: int)
    ensures Charge(Charge(ds, Resolve(None), status, a, t1), Resolve(None), status, b, t2)[status].d == b
  {
  }

  /** Charging a status twice: with MergeReplace the status ends with the
      newer data; with MergeIgnore it keeps the data it had first. */
  lemma MergeChoices<X>(ds: map<int, Usage<X>>, status: int, a: X, b: X, t1: int, t2: int)
    ensures Charge(Charge(ds, MergeReplace, status, a, t1), MergeReplace, status, b, t2)[status].d == b
    ensures Charge(Charge(ds, MergeIgnore, status, a, t1), MergeIgnore, status, b, t2)[status].d ==
      (if status in ds then ds[status].d else a)
  {
  }

  /** The loop's state: the statistic so far, the time charged up to, the
      index of the last update charged, and the status (with its data)
      in force since then. */
  datatype Scan<X> = Scan(ds: map<int, Usage<X>>, last: int, lastIdx: int, startStatus: int, startD: X)

  function Start<X>(tsB: int, nil: X): Scan<X> {
    Scan(map[], tsB, 0, 0, nil)
  }

  /** The loop over the updates from index i on: an update earlier than the
      time charged up to only changes the status in force; one at or after
      the window's end stops the loop; any other is charged from `last` to
      its time and becomes the status in force. */
  function ScanFrom<X>(es: seq<Entry<X>>, md: (X, X) -> X, tsE: int, i: nat, st: Scan<X>): (r: Scan<X>)
    ensures 0 <= st.lastIdx ==> 0 <= r.lastIdx
    ensures st.lastIdx < |es| ==> r.lastIdx < |es|
    decreases |es| - i
  {
    if i >= |es| then st
    else
      var f := es[i];
      if f.at < st.last then ScanFrom(es, md, tsE, i + 1, st.(startStatus := f.status, startD := f.d))
      else if f.at >= tsE then st
      else ScanFrom(es, md, tsE, i + 1, Scan(Charge(st.ds, md, st.startStatus, st.startD, f.at - st.last), f.at, i, f.status, f.d))
  }

  /** The outcome of DoStatistics: the statistic and the index the log
      is cut at when asked to clear it. */
  datatype Outcome<X> = Outcome(ds: map<int, Usage<X>>, lastIdx: int)

  /** The reference for DoStatistics: the loop, then the status in force at
      the end is charged up to the window's end. */
  function Statistics<X>(es: seq<Entry<X>>, tsB: int, tsE: int, md: (X, X) -> X, nil: X): (r: Outcome<X>)
    ensures |es| > 0 ==> 0 <= r.lastIdx < |es|
  {
    var st := ScanFrom(es, md, tsE, 0, Start(tsB, nil));
    Outcome(Charge(st.ds, md, st.startStatus, st.startD, tsE - st.last), st.lastIdx)
  }

  /** DoStatistics: the statistic of the window [tsB, tsE) and the log as
      it is left, cut at the last update charged when clearData is set. */
  method DoStatistics<X>(es: seq<Entry<X>>, tsB: int, tsE: int, clearData: bool, md: Option<(X, X) -> X>, nil: X)
    returns (ds: map<int, Usage<X>>, kept: seq<Entry<X>>)
    ensures ds == Statistics(es, tsB, tsE, Resolve(md), nil).ds
    ensures MapSum(Durations(ds)) == tsE - tsB
    ensures !clearData || |es| == 0 ==> kept == es
    ensures clearData && |es| > 0 ==> kept == es[Statistics(es, tsB, tsE, Resolve(md), nil).lastIdx..]
  {
    var merge := if md.Some? then md.value else MergeReplace;
    ds := map[];
    var last := tsB;
    var lastIdx := 0;
    var startStatus := 0;
    var startD := nil;
    var idx := 0;
    while idx < |es|
      invariant 0 <= idx <= |es| && 0 <= lastIdx < if |es| == 0 then 1 else |es|
      invariant ScanFrom(es, merge, tsE, 0, Start(tsB, nil)) == ScanFrom(es, merge, tsE, idx, Scan(ds, last, lastIdx, startStatus, startD))
    {
      var f := es[idx];
      if f.at < last {
        startStatus, startD := f.status, f.d;
        idx := idx + 1;
        continue;
      }
      if f.at >= tsE {
        break;
      }
      ds := Charge(ds, merge, startStatus, startD, f.at - last);
      last := f.at;
      startStatus, startD := f.status, f.d;
      lastIdx := idx;
      idx := idx + 1;
    }
    ds := Charge(ds, merge, startStatus, startD, tsE - last);
    WindowTotal(es, tsB, tsE, merge, nil);
    kept := es;
    if clearData && |es| > 0 {
      kept := es[lastIdx..];
    }
  }

  /** Each status's duration. */
  ghost function Durations<X>(ds: map<int, Usage<X>>): map<int, int> {
    map s | s in ds :: ds[s].duration
  }

  /** A charge adds its duration to the total. */
  lemma ChargeTotal<X>(ds: map<int, Usage<X>>, md: (X, X) -> X, status: int, data: X, dur: int)
    ensures MapSum(Durations(Charge(ds, md, status, data, dur))) == MapSum(Durations(ds)) + dur
  {
    var m := Durations(ds);
    assert Durations(Charge(ds, md, status, data, dur)) == m[status := Get0(m, status) + dur];
    MapSumUpdate(m, status, Get0(m, status) + dur);
  }

  /** The loop charges exactly the time from `last` to the time it ends
      charged up to. */
  lemma {:induction false} ScanTotal<X>(es: seq<Entry<X>>, md: (X, X) -> X, tsE: int, i: nat, st: Scan<X>)
    ensures var r := ScanFrom(es, md, tsE, i, st);
            MapSum(Durations(r.ds)) - r.last == MapSum(Durations(st.ds)) - st.last
    decreases |es| - i
  {
    if i < |es| {
      var f := es[i];
      if f.at < st.last {
        ScanTotal(es, md, tsE, i + 1, st.(startStatus := f.status, startD := f.d));
      } else if f.at < tsE {
        ChargeTotal(st.ds, md, st.startStatus, st.startD, f.at - st.last);
        ScanTotal(es, md, tsE, i + 1, Scan(Charge(st.ds, md, st.startStatus, st.startD, f.at - st.last), f.at, i, f.status, f.d));
      }
    }
  }

  /** The durations over all statuses add up to the window's length. */
  lemma WindowTotal<X>(es: seq<Entry<X>>, tsB: int, tsE: int, md: (X, X) -> X, nil: X)
    ensures MapSum(Durations(Statistics(es, tsB, tsE, md, nil).ds)) == tsE - tsB
  {
    var st := ScanFrom(es, md, tsE, 0, Start(tsB, nil));
    ScanTotal(es, md, tsE, 0, Start(tsB, nil));
    var empty: map<int, Usage<X>> := map[];
    assert Durations(empty) == map[];
    ChargeTotal(st.ds, md, st.startStatus, st.startD, tsE - st.last);
  }

  /** The time charged up to is the window's start, or an update's time
      at least that start and before the window's end. */
  ghost predicate LastInWindow<X>(es: seq<Entry<X>>, tsB: int, tsE: int, st: Scan<X>) {
    st.last == tsB || (tsB <= st.last < tsE && 0 <= st.lastIdx < |es| && es[st.lastIdx].at == st.last)
  }

  lemma {:induction false} ScanKeepsLast<X>(es: seq<Entry<X>>, tsB: int, md: (X, X) -> X, tsE: int, i: nat, st: Scan<X>)
    requires LastInWindow(es, tsB, tsE, st) && tsB <= st.last
    ensures LastInWindow(es, tsB, tsE, ScanFrom(es, md, tsE, i, st))
    ensures tsB <= ScanFrom(es, md, tsE, i, st).last
    decreases |es| - i
  {
    if i < |es| {
      var f := es[i];
      if f.at < st.last {
        ScanKeepsLast(es, tsB, md, tsE, i + 1, st.(startStatus := f.status, startD := f.d));
      } else if f.at < tsE {
        ScanKeepsLast(es, tsB, md, tsE, i + 1, Scan(Charge(st.ds, md, st.startStatus, st.startD, f.at - st.last), f.at, i, f.status, f.d));
      }
    }
  }

  /** Clearing keeps the log from the last update charged on; when no
      update was charged it keeps the whole log. */
  lemma KeptFromLastCharged<X>(es: seq<Entry<X>>, tsB: int, tsE: int, md: (X, X) -> X, nil: X)
    ensures var st := ScanFrom(es, md, tsE, 0, Start(tsB, nil));
            st.lastIdx == Statistics(es, tsB, tsE, md, nil).lastIdx &&
            (st.last == tsB || (tsB <= st.last < tsE && 0 <= st.lastIdx < |es| && es[st.lastIdx].at == st.last))
  {
    ScanKeepsLast(es, tsB, md, tsE, 0, Start(tsB, nil));
  }

  /** Everything from an update at or after both ends of the window on is
      ignored. */
  lemma {:induction false} ScanStopsAt<X>(es: seq<Entry<X>>, tsB: int, md: (X, X) -> X, tsE: int, k: nat, i: nat, st: Scan<X>)
    requires i <= k < |es| && es[k].at >= tsE && es[k].at >= tsB
    requires LastInWindow(es, tsB, tsE, st)
    ensures ScanFrom(es, md, tsE, i, st) == ScanFrom(es[..k], md, tsE, i, st)
    decreases k - i
  {
    var f := es[i];
    assert es[..k][..] == es[..k];
    if i < k {
      assert es[..k][i] == f;
      if f.at < st.last {
        ScanStopsAt(es, tsB, md, tsE, k, i + 1, st.(startStatus := f.status, startD := f.d));
      } else if f.at < tsE {
        var st' := Scan(Charge(st.ds, md, st.startStatus, st.startD, f.at - st.last), f.at, i, f.status, f.d);
        ScanStopsAt(es, tsB, md, tsE, k, i + 1, st');
      }
    }
  }

  /** Updates at or after the window's end (and its start) do not change the
      statistic or the cut, nor does anything logged after them. */
  lemma IgnoresFrom<X>(es: seq<Entry<X>>, tsB: int, tsE: int, md: (X, X) -> X, nil: X, k: nat)
    requires k < |es| && es[k].at >= tsE && es[k].at >= tsB
    ensures Statistics(es, tsB, tsE, md, nil) == Statistics(es[..k], tsB, tsE, md, nil)
  {
    ScanStopsAt(es, tsB, md, tsE, k, 0, Start(tsB, nil));
  }

  /** Updates made before the window only set the status in force: after
      a prefix of them, the loop goes on from the last one's status. */
  lemma {:induction false} BeforeWindow<X>(es: seq<Entry<X>>, md: (X, X) -> X, tsE: int, i: nat, k: nat, st: Scan<X>)
    requires i < k <= |es|
    requires forall j :: i <= j < k ==> es[j].at < st.last
    ensures ScanFrom(es, md, tsE, i, st) == ScanFrom(es, md, tsE, k, st.(startStatus := es[k - 1].status, startD := es[k - 1].d))
    decreases k - i
  {
    if i + 1 < k {
      BeforeWindow(es, md, tsE, i + 1, k, st.(startStatus := es[i].status, startD := es[i].d));
    }
  }

  /** When every update precedes the window, the whole window goes to the
      last update's status; with no updates at all, to status 0 with nil
      data. */
  lemma AllBeforeWindow<X>(es: seq<Entry<X>>, tsB: int, tsE: int, md: (X, X) -> X, nil: X)
    requires forall j :: 0 <= j < |es| ==> es[j].at < tsB
    ensures |es| == 0 ==> Statistics(es, tsB, tsE, md, nil).ds == map[0 := Usage(tsE - tsB, nil)]
    ensures |es| > 0 ==> Statistics(es, tsB, tsE, md, nil).ds == map[es[|es| - 1].status := Usage(tsE - tsB, es[|es| - 1].d)]
  {
    if |es| > 0 {
      BeforeWindow(es, md, tsE, 0, |es|, Start(tsB, nil));
    }
  }

  /** The first update in the window is charged from the window's start, to
      the status of the last update before the window (status 0 with nil
      data when there is none). */
  lemma FirstInWindow<X>(es: seq<Entry<X>>, tsB: int, tsE: int, md: (X, X) -> X, nil: X, k: nat)
    requires k < |es| && tsB <= es[k].at < tsE
    requires forall j :: 0 <= j < k ==> es[j].at < tsB
    ensures var s0 := if k == 0 then 0 else es[k - 1].status;
            var d0 := if k == 0 then nil else es[k - 1].d;
            ScanFrom(es, md, tsE, 0, Start(tsB, nil)) ==
              ScanFrom(es, md, tsE, k + 1, Scan(map[s0 := Usage(es[k].at - tsB, d0)], es[k].at, k, es[k].status, es[k].d))
  {
    if k > 0 {
      BeforeWindow(es, md, tsE, 0, k, Start(tsB, nil));
    }
  }

  /** GetStatusStatisticsEx: one slot per requested status, in the order
      requested, empty for a status the window never charged; with
      clearData the log keeps only the updates from the last one charged
      on. */
  method GetStatusStatisticsEx<X>(es: seq<Entry<X>>, tsB: int, tsE: int, statuses: seq<int>, clearData: bool, md: Option<(X, X) -> X>, nil: X)
    returns (vs: seq<Option<Usage<X>>>, kept: seq<Entry<X>>)
    ensures |vs| == |statuses|
    ensures var ds := Statistics(es, tsB, tsE, Resolve(md), nil).ds;
            forall i :: 0 <= i < |vs| ==> (vs[i].Some? <==> statuses[i] in ds) && (vs[i].Some? ==> vs[i].value == ds[statuses[i]])
    ensures !clearData || |es| == 0 ==> kept == es
    ensures clearData && |es| > 0 ==> kept == es[Statistics(es, tsB, tsE, Resolve(md), nil).lastIdx..]
  {
    var ds;
    ds, kept := DoStatistics(es, tsB, tsE, clearData, md, nil);
    vs := [];
    var idx := 0;
    while idx < |statuses|
      invariant 0 <= idx <= |statuses| && |vs| == idx
      invariant forall i :: 0 <= i < idx ==> (vs[i].Some? <==> statuses[i] in ds) && (vs[i].Some? ==> vs[i].value == ds[statuses[i]])
    {
      var v := if statuses[idx] in ds then Some(ds[statuses[idx]]) else None;
      vs := vs + [v];
      idx := idx + 1;
    }
  }

  /** A window with one update before it and one inside: the time up to the
      inner update goes to the earlier status, the rest to the later. */
  lemma TwoUpdates()
    ensures Statistics([Entry(1, 10, 10), Entry(2, 20, 20)], 15, 30, MergeReplace, 0).ds ==
              map[1 := Usage(5, 10), 2 := Usage(10, 20)]
  {
    var es := [Entry(1, 10, 10), Entry(2, 20, 20)];
    FirstInWindow(es, 15, 30, MergeReplace, 0, 1);
  }
}
