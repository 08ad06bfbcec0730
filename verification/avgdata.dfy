/** The integer-averaging curve data: an unbounded sum of 64-bit samples
    and their count. Its average divides the sum by the count the way
    big.Int's Div does, rounding toward negative infinity for a positive
    count, not toward zero as Go's `/` on int64 does. */
module AvgData {
  import opened Sums
  import opened Numeral

  datatype Int64Avg = Int64Avg(sum: int, count: int)

  /** GenInt64AVGData: one sample. */
  function Gen(n: int): (r: Int64Avg)
    ensures r.count == 1 && r.sum == n
  {
    Int64Avg(n, 1)
  }

  /** Combine: a new value holding one more sample; the receiver is a value
      and stays as it was. */
  function Combine(o: Int64Avg, d: int): (r: Int64Avg)
    ensures r.count == o.count + 1 && r.sum - o.sum == d
  {
    Int64Avg(o.sum + d, o.count + 1)
  }

  /** Clone: a copy equal to the original. The copy's sum is a new big
      integer; as values here, the two cannot share state. */
  function Clone(o: Int64Avg): (r: Int64Avg)
    ensures r == o
  {
    Int64Avg(o.sum, o.count)
  }

  /** Calc: the quotient rounded toward negative infinity. The count of
      every value built by Gen and Combine is positive. */
  function Calc(o: Int64Avg): (r: int)
    requires o.count > 0
    ensures o.count * r <= o.sum < o.count * (r + 1)
  {
    o.sum / o.count
  }

  /** Go's `/` on integers, which rounds toward zero. */
  function TruncDiv(a: int, b: int): int
    requires b > 0
  {
    if a >= 0 then a / b else -((-a) / b)
  }

  /** The average of -3 and 0 is -2, where dividing with Go's `/` on int64
      would give -1. */
  lemma CalcRoundsDown()
    ensures Calc(Combine(Gen(-3), 0)) == -2
    ensures TruncDiv(-3, 2) == -1
  {
  }

  /** The curve's accumulation of a non-empty run of samples: the first
      makes the value, each later one is combined into it. */
  function Accumulate(ds: seq<int>): (r: Int64Avg)
    requires |ds| > 0
    ensures r.count == |ds|
    ensures r.sum == SeqSum(ds)
  {
    if |ds| == 1 then Gen(ds[0]) else Combine(Accumulate(ds[..|ds| - 1]), ds[|ds| - 1])
  }

  /** Bounds on each sample bound the sum. */
  lemma {:induction false} SumBetween(ds: seq<int>, lo: int, hi: int)
    requires forall i :: 0 <= i < |ds| ==> lo <= ds[i] <= hi
    ensures |ds| * lo <= SeqSum(ds) <= |ds| * hi
    decreases |ds|
  {
    if |ds| > 0 {
      SumBetween(ds[..|ds| - 1], lo, hi);
      assert |ds| * lo == (|ds| - 1) * lo + lo;
      assert |ds| * hi == (|ds| - 1) * hi + hi;
    }
  }

  /** c * a < c * b for a < b and a positive c. */
  lemma MulStrict(c: int, a: int, b: int)
    requires c > 0 && a < b
    ensures c * a < c * b
  {
    MulAtLeastOne(c, b - a);
    assert c * b == c * a + c * (b - a);
  }

  lemma {:induction false} MulAtLeastOne(c: int, k: int)
    requires c > 0 && k >= 1
    ensures c * k >= c
    decreases k
  {
    if k > 1 {
      MulAtLeastOne(c, k - 1);
      assert c * k == c * (k - 1) + c;
    }
  }

  /** The average lies between the least and the greatest sample; in
      particular it is a 64-bit value whenever the samples are. */
  lemma CalcBetween(ds: seq<int>, lo: int, hi: int)
    requires |ds| > 0
    requires forall i :: 0 <= i < |ds| ==> lo <= ds[i] <= hi
    ensures lo <= Calc(Accumulate(ds)) <= hi
    ensures (forall i :: 0 <= i < |ds| ==> IsInt64(ds[i])) ==> IsInt64(Calc(Accumulate(ds)))
  {
    var o := Accumulate(ds);
    var r := Calc(o);
    var n := |ds|;
    SumBetween(ds, lo, hi);
    if r > hi {
      MulStrict(n, hi, r);
    }
    if r + 1 <= lo {
      MulStrict(n, r + 1, lo);
      assert false;
    }
    if forall i :: 0 <= i < |ds| ==> IsInt64(ds[i]) {
      SumBetween(ds, -(Int64Cutoff as int), Int64Cutoff as int - 1);
      var m := -(Int64Cutoff as int);
      var x := Int64Cutoff as int - 1;
      if r > x {
        MulStrict(n, x, r);
      }
      if r + 1 <= m {
        MulStrict(n, r + 1, m);
        assert false;
      }
    }
  }

  /** Equal samples average to that sample. */
  lemma CalcConstant(ds: seq<int>, v: int)
    requires |ds| > 0
    requires forall i :: 0 <= i < |ds| ==> ds[i] == v
    ensures Calc(Accumulate(ds)) == v
  {
    CalcBetween(ds, v, v);
  }
}
