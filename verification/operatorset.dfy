/** The operator set: several quota operators asked in turn for whatever
    is still missing. An operator is seen through its reply to a request
    for an amount; the state it changes behind that reply is its own and
    is not threaded through here. */
module OperatorSet {
  import opened Wrappers

  /** An operator's reply to TryConsumeAmount: the amount it consumed, or
      an error. */
  datatype Reply = Reply(amount: int, err: Option<Code>)

  type Operator = int -> Reply

  /** The result of the set's TryConsumeAmount: the amount consumed, the
      error, and the amounts the operators were asked for, in order. */
  datatype Run = Run(consumed: int, err: Option<Code>, asked: seq<int>)

  /** An operator that consumes no more than it is asked for, and nothing
      for a request that is not positive. */
  ghost predicate Honest(op: Operator) {
    forall k :: 0 <= op(k).amount && (k <= 0 ==> op(k).amount == 0) && (k > 0 ==> op(k).amount <= k)
  }

  /** The reference definition, operator by operator: ask the first for
      n - rn, stop with (0, err) on an error, and stop once rn reaches n. */
  function Chain(ops: seq<Operator>, n: int, rn: int): (r: Run)
    ensures |r.asked| <= |ops|
    ensures r.err.Some? ==> r.consumed == 0 && |r.asked| >= 1
    ensures |ops| > 0 ==> |r.asked| >= 1 && r.asked[0] == n - rn
    decreases |ops|
  {
    if |ops| == 0 then Run(rn, None, [])
    else
      var reply := ops[0](n - rn);
      if reply.err.Some? then Run(0, reply.err, [n - rn])
      else if rn + reply.amount >= n then Run(rn + reply.amount, None, [n - rn])
      else
        var rest := Chain(ops[1..], n, rn + reply.amount);
        Run(rest.consumed, rest.err, [n - rn] + rest.asked)
  }

  /** Each operator after the first is asked for what the previous request
      left uncovered. */
  lemma {:induction false} ChainAsksForTheRest(ops: seq<Operator>, n: int, rn: int)
    ensures var r := Chain(ops, n, rn);
            forall k :: 0 <= k < |r.asked| - 1 ==>
              ops[k](r.asked[k]).err.None? && r.asked[k + 1] == r.asked[k] - ops[k](r.asked[k]).amount
    decreases |ops|
  {
    if |ops| > 0 {
      var reply := ops[0](n - rn);
      if reply.err.None? && rn + reply.amount < n {
        ChainAsksForTheRest(ops[1..], n, rn + reply.amount);
        var r := Chain(ops, n, rn);
        var rest := Chain(ops[1..], n, rn + reply.amount);
        assert r.asked == [n - rn] + rest.asked;
        forall k | 0 <= k < |r.asked| - 1
          ensures ops[k](r.asked[k]).err.None? && r.asked[k + 1] == r.asked[k] - ops[k](r.asked[k]).amount
        {
          if k > 0 {
            assert r.asked[k] == rest.asked[k - 1] && r.asked[k + 1] == rest.asked[k];
            assert ops[k] == ops[1..][k - 1];
          }
        }
      }
    }
  }

  /** Iteration stops early only once the goal is reached or an operator
      failed: a successful run that consumed less than n asked every
      operator. */
  lemma {:induction false} ChainStopsAtGoal(ops: seq<Operator>, n: int, rn: int)
    ensures var r := Chain(ops, n, rn);
            r.err.None? && |r.asked| < |ops| ==> r.consumed >= n
    ensures var r := Chain(ops, n, rn);
            r.err.None? && r.consumed < n ==> |r.asked| == |ops|
    decreases |ops|
  {
    if |ops| > 0 {
      var reply := ops[0](n - rn);
      if reply.err.None? && rn + reply.amount < n {
        ChainStopsAtGoal(ops[1..], n, rn + reply.amount);
      }
    }
  }

  /** With honest operators and 0 <= rn <= n, the set never consumes more
      than n nor less than it already had. */
  lemma {:induction false} ChainBounded(ops: seq<Operator>, n: int, rn: int)
    requires forall i :: 0 <= i < |ops| ==> Honest(ops[i])
    requires 0 <= rn <= n
    ensures var r := Chain(ops, n, rn);
            r.err.None? ==> rn <= r.consumed <= n
    decreases |ops|
  {
    if |ops| > 0 {
      var reply := ops[0](n - rn);
      assert Honest(ops[0]);
      if reply.err.None? && rn + reply.amount < n {
        ChainBounded(ops[1..], n, rn + reply.amount);
      }
    }
  }

  /** One step of the reference definition, from operator i on. */
  lemma ChainAt(ops: seq<Operator>, i: nat, n: int, rn: int)
    requires i < |ops|
    ensures var reply := ops[i](n - rn);
            reply.err.Some? ==> Chain(ops[i..], n, rn) == Run(0, reply.err, [n - rn])
    ensures var reply := ops[i](n - rn);
            reply.err.None? && rn + reply.amount >= n ==> Chain(ops[i..], n, rn) == Run(rn + reply.amount, None, [n - rn])
    ensures var reply := ops[i](n - rn);
            reply.err.None? && rn + reply.amount < n ==>
              Chain(ops[i..], n, rn) == Behind([n - rn], Chain(ops[i + 1..], n, rn + reply.amount))
  {
    assert ops[i..][0] == ops[i] && ops[i..][1..] == ops[i + 1..];
  }

  /** The loop's step: with everything before operator i already asked,
      operator i's reply either ends the run or leaves it to operator
      i + 1. */
  lemma ChainStep(ops: seq<Operator>, i: nat, n: int, rn: int, asked: seq<int>)
    requires i < |ops| && Chain(ops, n, 0) == Behind(asked, Chain(ops[i..], n, rn))
    ensures var reply := ops[i](n - rn);
            reply.err.Some? ==> Chain(ops, n, 0) == Run(0, reply.err, asked + [n - rn])
    ensures var reply := ops[i](n - rn);
            reply.err.None? && rn + reply.amount >= n ==> Chain(ops, n, 0) == Run(rn + reply.amount, None, asked + [n - rn])
    ensures var reply := ops[i](n - rn);
            reply.err.None? && rn + reply.amount < n ==>
              Chain(ops, n, 0) == Behind(asked + [n - rn], Chain(ops[i + 1..], n, rn + reply.amount))
  {
    ChainAt(ops, i, n, rn);
    var reply := ops[i](n - rn);
    if reply.err.None? && rn + reply.amount < n {
      BehindTwice(asked, [n - rn], Chain(ops[i + 1..], n, rn + reply.amount));
    }
  }

  /** Past the last operator the run is what was gathered. */
  lemma ChainDone(ops: seq<Operator>, n: int, rn: int, asked: seq<int>)
    requires Chain(ops, n, 0) == Behind(asked, Chain(ops[|ops|..], n, rn))
    ensures Chain(ops, n, 0) == Run(rn, None, asked)
  {
    assert ops[|ops|..] == [];
    assert asked + [] == asked;
  }

  /** Requests made in two batches are the two batches in order. */
  lemma BehindTwice(a: seq<int>, b: seq<int>, r: Run)
    ensures Behind(a, Behind(b, r)) == Behind(a + b, r)
  {
    assert a + (b + r.asked) == (a + b) + r.asked;
  }

  /** A run behind requests already made. */
  function Behind(asked: seq<int>, r: Run): Run {
    Run(r.consumed, r.err, asked + r.asked)
  }

  /** What the reference definition promises about a whole run. */
  lemma ChainFacts(ops: seq<Operator>, n: int, r: Run)
    requires r == Chain(ops, n, 0)
    ensures r.err.Some? ==> r.consumed == 0
    ensures r.err.None? && (forall i :: 0 <= i < |ops| ==> Honest(ops[i])) && n >= 0 ==> 0 <= r.consumed <= n
    ensures r.err.None? && r.consumed < n ==> |r.asked| == |ops|
  {
    if (forall j :: 0 <= j < |ops| ==> Honest(ops[j])) && n >= 0 {
      ChainBounded(ops, n, 0);
    }
    ChainStopsAtGoal(ops, n, 0);
  }

  /** TryConsumeAmount of the set, as the loop over the operators: it
      computes the reference run (whose properties ChainFacts states). */
  method TryConsumeAmount(ops: seq<Operator>, n: int) returns (consumed: int, err: Option<Code>, asked: seq<int>)
    ensures Run(consumed, err, asked) == Chain(ops, n, 0)
  {
    var rn := 0;
    var i := 0;
    asked := [];
    err := None;
    while i < |ops|
      invariant 0 <= i <= |ops|
      invariant Chain(ops, n, 0) == Behind(asked, Chain(ops[i..], n, rn))
    {
      var reply := ops[i](n - rn);
      ChainStep(ops, i, n, rn, asked);
      asked := asked + [n - rn];
      if reply.err.Some? {
        return 0, reply.err, asked;
      }
      rn := rn + reply.amount;
      if rn >= n {
        return rn, None, asked;
      }
      i := i + 1;
    }
    ChainDone(ops, n, rn, asked);
    consumed := rn;
  }
}
