/** The hashrate curve's reading of one sample: a map from
    "proxy-id:account" keys to 64-bit rates, folded into per-pool, per-coin
    and overall points. The account's suffix picks the field the rate goes
    to. The map's iteration order is a sequence of its entries here, and
    the result does not depend on it. */
module Hashrate {
  import opened Wrappers
  import opened Numeral
  import AvgData

  datatype Point = Point(minerV: int, csV: int, buildInCsV: int, event: string)

  /** NewPOINT: the zero point. */
  const NewPoint := Point(0, 0, 0, "")

  /** The key of a pool's point, of a coin's point (both by proxy id) and
      of the overall point. */
  datatype Supporter = Supporter(poolKey: int -> string, coinKey: int -> string, allKey: string)

  /** The number of times c occurs in s. */
  function Count(s: string, c: char): nat {
    if |s| == 0 then 0 else (if s[0] == c then 1 else 0) + Count(s[1..], c)
  }

  /** strings.Split with a one-character separator. */
  function Split(s: string, c: char): (r: seq<string>)
    ensures |r| == Count(s, c) + 1
    ensures forall i :: 0 <= i < |r| ==> c !in r[i]
    decreases |s|
  {
    if |s| == 0 then [""]
    else
      var rest := Split(s[1..], c);
      if s[0] == c then [""] + rest else [[s[0]] + rest[0]] + rest[1..]
  }

  /** The parts joined back with the separator. */
  function Join(parts: seq<string>, c: char): string
    requires |parts| >= 1
    decreases |parts|
  {
    if |parts| == 1 then parts[0] else parts[0] + [c] + Join(parts[1..], c)
  }

  /** Splitting loses nothing: joining the parts gives the key back. */
  lemma {:induction false} SplitJoin(s: string, c: char)
    ensures Join(Split(s, c), c) == s
    decreases |s|
  {
    if |s| > 0 {
      SplitJoin(s[1..], c);
      var rest := Split(s[1..], c);
      if s[0] == c {
        assert Join([""] + rest, c) == [c] + Join(rest, c) by {
          assert ([""] + rest)[1..] == rest;
        }
      } else {
        var r := [[s[0]] + rest[0]] + rest[1..];
        if |rest| > 1 {
          assert r[1..] == rest[1..];
          assert Join(rest, c) == rest[0] + [c] + Join(rest[1..], c);
        }
        assert s == [s[0]] + s[1..];
      }
    }
  }

  /** A key without the separator is one part. */
  lemma {:induction false} SplitNone(s: string, c: char)
    requires c !in s
    ensures Split(s, c) == [s]
    decreases |s|
  {
    if |s| > 0 {
      SplitNone(s[1..], c);
      assert s == [s[0]] + s[1..];
    }
  }

  /** The part before the first separator is the first part; the rest is
      split on. */
  lemma {:induction false} SplitFirst(a: string, c: char, b: string)
    requires c !in a
    ensures Split(a + [c] + b, c) == [a] + Split(b, c)
    decreases |a|
  {
    var s := a + [c] + b;
    if |a| > 0 {
      assert s[1..] == a[1..] + [c] + b;
      SplitFirst(a[1..], c, b);
      assert a == [a[0]] + a[1..];
    } else {
      assert s[1..] == b;
    }
  }

  /** strings.HasSuffix. */
  predicate HasSuffix(s: string, suffix: string) {
    |suffix| <= |s| && s[|s| - |suffix|..] == suffix
  }

  datatype Field = Miner | Cs | BuildInCs

  /** No account ends in both ".cs" and ".cs_buildin". */
  lemma SuffixesExclusive(account: string)
    ensures !(HasSuffix(account, ".cs") && HasSuffix(account, ".cs_buildin"))
  {
    if HasSuffix(account, ".cs_buildin") {
      var n := |account|;
      assert account[n - 1] == 'n';
    }
  }

  /** The field an account's rate goes to. */
  function ClassOf(account: string): (f: Field)
    ensures f == Cs <==> HasSuffix(account, ".cs")
    ensures f == BuildInCs <==> HasSuffix(account, ".cs_buildin")
  {
    SuffixesExclusive(account);
    if HasSuffix(account, ".cs") then Cs
    else if HasSuffix(account, ".cs_buildin") then BuildInCs
    else Miner
  }

  function FieldOf(p: Point, f: Field): int {
    match f
    case Miner => p.minerV
    case Cs => p.csV
    case BuildInCs => p.buildInCsV
  }

  /** Adds d to one field of a point. */
  function AddTo(p: Point, f: Field, d: int): (r: Point)
    ensures forall g :: FieldOf(r, g) == FieldOf(p, g) + (if g == f then d else 0)
    ensures r.event == p.event
  {
    match f
    case Miner => p.(minerV := p.minerV + d)
    case Cs => p.(csV := p.csV + d)
    case BuildInCs => p.(buildInCsV := p.buildInCsV + d)
  }

  /** The point stored at a key, or a new one. */
  function PointAt(rm: map<string, Point>, key: string): Point {
    if key in rm then rm[key] else NewPoint
  }

  /** fnMustSD4Key followed by the addition: the point at `key`, created
      when missing, with d added to field f. */
  function MustAdd(rm: map<string, Point>, key: string, f: Field, d: int): map<string, Point> {
    rm[key := AddTo(PointAt(rm, key), f, d)]
  }

  /** A key the sample can use: one with exactly one ':' whose part before
      it is a decimal 64-bit integer. */
  predicate Usable(key: string) {
    var ps := Split(key, ':');
    |ps| == 2 && ParseInt(ps[0]).Ok?
  }

  /** A key the code panics on: one ':' and a proxy id that does not parse. */
  predicate Panics(key: string) {
    var ps := Split(key, ':');
    |ps| == 2 && ParseInt(ps[0]).Err?
  }

  /** One entry of the map: a key without exactly one ':' is skipped; any
      other adds the rate to the overall, the coin's and the pool's point. */
  function Step(spt: Supporter, rm: map<string, Point>, key: string, d: int): (r: map<string, Point>)
    requires !Panics(key)
    ensures !Usable(key) ==> r == rm
    ensures Usable(key) ==> r.Keys == rm.Keys + {spt.allKey, spt.coinKey(ParseInt(Split(key, ':')[0]).value), spt.poolKey(ParseInt(Split(key, ':')[0]).value)}
  {
    var ps := Split(key, ':');
    if |ps| != 2 then rm
    else
      var proxyID := ParseInt(ps[0]).value;
      var f := ClassOf(ps[1]);
      MustAdd(MustAdd(MustAdd(rm, spt.allKey, f, d), spt.coinKey(proxyID), f, d), spt.poolKey(proxyID), f, d)
  }

  predicate NoPanics(es: seq<(string, int)>) {
    forall i :: 0 <= i < |es| ==> !Panics(es[i].0)
  }

  /** The overall, coin and pool keys a usable entry adds to. */
  function KeysOf(spt: Supporter, key: string): set<string>
    requires Usable(key)
  {
    var id := ParseInt(Split(key, ':')[0]).value;
    {spt.allKey, spt.coinKey(id), spt.poolKey(id)}
  }

  /** ExplainDataAt over the map's entries in iteration order. */
  function Explain(spt: Supporter, es: seq<(string, int)>): map<string, Point>
    requires NoPanics(es)
    decreases |es|
  {
    if |es| == 0 then map[]
    else Step(spt, Explain(spt, es[..|es| - 1]), es[|es| - 1].0, es[|es| - 1].1)
  }

  /** One explained entry: the keys it adds to the points before it. */
  lemma ExplainLast(spt: Supporter, es: seq<(string, int)>)
    requires NoPanics(es) && |es| > 0
    ensures var last := es[|es| - 1].0;
      Explain(spt, es).Keys == Explain(spt, es[..|es| - 1]).Keys + (if Usable(last) then KeysOf(spt, last) else {})
  {
  }

  /** Every usable entry's overall, coin and pool keys have a point. */
  lemma {:induction false} ExplainCovers(spt: Supporter, es: seq<(string, int)>)
    requires NoPanics(es)
    ensures forall i :: 0 <= i < |es| && Usable(es[i].0) ==> KeysOf(spt, es[i].0) <= Explain(spt, es).Keys
    decreases |es|
  {
    if |es| > 0 {
      var n := |es| - 1;
      var p := es[..n];
      assert NoPanics(p) by {
        forall i | 0 <= i < n ensures !Panics(p[i].0) { assert p[i] == es[i]; }
      }
      ExplainCovers(spt, p);
      ExplainLast(spt, es);
      forall i | 0 <= i < n && Usable(es[i].0)
        ensures KeysOf(spt, es[i].0) <= Explain(spt, es).Keys
      {
        assert es[i] == p[i];
      }
    }
  }

  /** Every point belongs to the overall, coin or pool key of a usable
      entry: entries without a ':' add nothing. */
  lemma {:induction false} ExplainOnly(spt: Supporter, es: seq<(string, int)>)
    requires NoPanics(es)
    ensures forall k :: k in Explain(spt, es) ==>
      exists i :: 0 <= i < |es| && Usable(es[i].0) && k in KeysOf(spt, es[i].0)
    decreases |es|
  {
    if |es| > 0 {
      var n := |es| - 1;
      var p := es[..n];
      assert NoPanics(p) by {
        forall i | 0 <= i < n ensures !Panics(p[i].0) { assert p[i] == es[i]; }
      }
      ExplainOnly(spt, p);
      ExplainLast(spt, es);
      forall k | k in Explain(spt, es)
        ensures exists i :: 0 <= i < |es| && Usable(es[i].0) && k in KeysOf(spt, es[i].0)
      {
        if k in Explain(spt, p) {
          var i :| 0 <= i < |p| && Usable(p[i].0) && k in KeysOf(spt, p[i].0);
          assert es[i] == p[i];
        }
      }
    }
  }

  /** The rates of usable entries whose account falls in field f. */
  function ClassSum(es: seq<(string, int)>, f: Field): int
    decreases |es|
  {
    if |es| == 0 then 0
    else
      var key := es[|es| - 1].0;
      ClassSum(es[..|es| - 1], f) + (if Usable(key) && ClassOf(Split(key, ':')[1]) == f then es[|es| - 1].1 else 0)
  }

  /** The overall key is neither a pool's nor a coin's key. */
  ghost predicate AllKeyApart(spt: Supporter) {
    forall id :: spt.coinKey(id) != spt.allKey && spt.poolKey(id) != spt.allKey
  }

  /** Each field of the overall point is the sum of the rates in that field,
      and the overall point exists exactly when some entry was usable. */
  lemma {:induction false} AllPointSums(spt: Supporter, es: seq<(string, int)>)
    requires NoPanics(es) && AllKeyApart(spt)
    ensures spt.allKey in Explain(spt, es) <==> exists i :: 0 <= i < |es| && Usable(es[i].0)
    ensures forall f :: FieldOf(PointAt(Explain(spt, es), spt.allKey), f) == ClassSum(es, f)
    decreases |es|
  {
    if |es| > 0 {
      var n := |es| - 1;
      var init := es[..n];
      AllPointSums(spt, init);
      assert forall i :: 0 <= i < n ==> init[i] == es[i];
      AllPointStep(spt, Explain(spt, init), es[n].0, es[n].1);
    }
  }

  /** One entry adds its rate to the overall point's field exactly when it
      is usable, and only a usable entry creates that point. */
  lemma AllPointStep(spt: Supporter, rm: map<string, Point>, key: string, d: int)
    requires !Panics(key) && AllKeyApart(spt)
    ensures spt.allKey in Step(spt, rm, key, d) <==> spt.allKey in rm || Usable(key)
    ensures forall f :: FieldOf(PointAt(Step(spt, rm, key, d), spt.allKey), f) ==
                        FieldOf(PointAt(rm, spt.allKey), f) + (if Usable(key) && ClassOf(Split(key, ':')[1]) == f then d else 0)
  {
    if Usable(key) {
      var id := ParseInt(Split(key, ':')[0]).value;
      var f := ClassOf(Split(key, ':')[1]);
      var r1 := MustAdd(rm, spt.allKey, f, d);
      var r2 := MustAdd(r1, spt.coinKey(id), f, d);
      assert PointAt(r2, spt.allKey) == PointAt(r1, spt.allKey);
    }
  }

  /** What an entry adds to field g of the point at k: its rate once for
      each of its three keys that is k, when g is its field. */
  function Delta(spt: Supporter, key: string, d: int, k: string, g: Field): int
    requires !Panics(key)
  {
    if !Usable(key) || ClassOf(Split(key, ':')[1]) != g then 0
    else
      var id := ParseInt(Split(key, ':')[0]).value;
      (if spt.allKey == k then d else 0) + (if spt.coinKey(id) == k then d else 0) + (if spt.poolKey(id) == k then d else 0)
  }

  lemma MustAddAt(rm: map<string, Point>, key: string, f: Field, d: int, k: string)
    ensures forall g :: FieldOf(PointAt(MustAdd(rm, key, f, d), k), g) == FieldOf(PointAt(rm, k), g) + (if k == key && g == f then d else 0)
    ensures PointAt(MustAdd(rm, key, f, d), k).event == PointAt(rm, k).event
  {
  }

  /** One entry adds Delta to every field of every point, and nothing
      else. */
  lemma StepAt(spt: Supporter, rm: map<string, Point>, key: string, d: int, k: string)
    requires !Panics(key)
    ensures forall g :: FieldOf(PointAt(Step(spt, rm, key, d), k), g) == FieldOf(PointAt(rm, k), g) + Delta(spt, key, d, k, g)
    ensures PointAt(Step(spt, rm, key, d), k).event == PointAt(rm, k).event
  {
    if Usable(key) {
      var ps := Split(key, ':');
      var id := ParseInt(ps[0]).value;
      var f := ClassOf(ps[1]);
      var r1 := MustAdd(rm, spt.allKey, f, d);
      var r2 := MustAdd(r1, spt.coinKey(id), f, d);
      MustAddAt(rm, spt.allKey, f, d, k);
      MustAddAt(r1, spt.coinKey(id), f, d, k);
      MustAddAt(r2, spt.poolKey(id), f, d, k);
    }
  }

  /** Points with the same fields and event are the same point. */
  lemma PointExt(p: Point, q: Point)
    requires forall g :: FieldOf(p, g) == FieldOf(q, g)
    requires p.event == q.event
    ensures p == q
  {
    assert FieldOf(p, Miner) == FieldOf(q, Miner);
    assert FieldOf(p, Cs) == FieldOf(q, Cs);
    assert FieldOf(p, BuildInCs) == FieldOf(q, BuildInCs);
  }

  /** Two entries in either order give the same points. */
  lemma StepsCommute(spt: Supporter, rm: map<string, Point>, a: (string, int), b: (string, int))
    requires !Panics(a.0) && !Panics(b.0)
    ensures Step(spt, Step(spt, rm, a.0, a.1), b.0, b.1) == Step(spt, Step(spt, rm, b.0, b.1), a.0, a.1)
  {
    var ra := Step(spt, rm, a.0, a.1);
    var rb := Step(spt, rm, b.0, b.1);
    var rab := Step(spt, ra, b.0, b.1);
    var rba := Step(spt, rb, a.0, a.1);
    forall k | k in rab
      ensures k in rba && rab[k] == rba[k]
    {
      StepAt(spt, rm, a.0, a.1, k);
      StepAt(spt, rm, b.0, b.1, k);
      StepAt(spt, ra, b.0, b.1, k);
      StepAt(spt, rb, a.0, a.1, k);
      PointExt(PointAt(rab, k), PointAt(rba, k));
    }
    assert rab.Keys == rba.Keys;
  }

  /** Explain of a run with one more entry at the end takes one more
      step. */
  lemma ExplainSnoc(spt: Supporter, es: seq<(string, int)>, z: (string, int))
    requires NoPanics(es) && !Panics(z.0)
    ensures NoPanics(es + [z])
    ensures Explain(spt, es + [z]) == Step(spt, Explain(spt, es), z.0, z.1)
  {
    assert (es + [z])[..|es|] == es;
    assert forall i :: 0 <= i < |es| ==> (es + [z])[i] == es[i];
  }

  lemma NoPanicsConcat(a: seq<(string, int)>, b: seq<(string, int)>)
    ensures NoPanics(a + b) <==> NoPanics(a) && NoPanics(b)
  {
    assert forall i :: 0 <= i < |a| ==> (a + b)[i] == a[i];
    assert forall i :: 0 <= i < |b| ==> (a + b)[|a| + i] == b[i];
  }

  /** The last two entries can be swapped. */
  lemma SwapLast(spt: Supporter, c: seq<(string, int)>, x: (string, int), y: (string, int))
    requires NoPanics(c) && !Panics(x.0) && !Panics(y.0)
    ensures NoPanics(c + [x] + [y]) && NoPanics(c + [y] + [x])
    ensures Explain(spt, c + [x] + [y]) == Explain(spt, c + [y] + [x])
  {
    ExplainSnoc(spt, c, x);
    ExplainSnoc(spt, c, y);
    ExplainSnoc(spt, c + [x], y);
    ExplainSnoc(spt, c + [y], x);
    StepsCommute(spt, Explain(spt, c), x, y);
  }

  /** Appending the same entry to sequences that explain alike keeps them
      alike. */
  lemma SnocAlike(spt: Supporter, a: seq<(string, int)>, b: seq<(string, int)>, y: (string, int))
    requires NoPanics(a) && NoPanics(b) && !Panics(y.0)
    requires Explain(spt, a) == Explain(spt, b)
    ensures NoPanics(a + [y]) && NoPanics(b + [y])
    ensures Explain(spt, a + [y]) == Explain(spt, b + [y])
  {
    ExplainSnoc(spt, a, y);
    ExplainSnoc(spt, b, y);
  }

  lemma MoveNoPanics(p: seq<(string, int)>, x: (string, int), q: seq<(string, int)>)
    requires NoPanics(p) && !Panics(x.0) && NoPanics(q)
    ensures NoPanics(p + [x] + q) && NoPanics(p + q + [x])
  {
    NoPanicsConcat(p, [x]);
    NoPanicsConcat(p + [x], q);
    NoPanicsConcat(p, q);
    NoPanicsConcat(p + q, [x]);
  }

  /** An entry can be moved to the end without changing the result. */
  lemma {:induction false} MoveToEnd(spt: Supporter, p: seq<(string, int)>, x: (string, int), q: seq<(string, int)>)
    requires NoPanics(p) && !Panics(x.0) && NoPanics(q)
    ensures NoPanics(p + [x] + q) && NoPanics(p + q + [x])
    ensures Explain(spt, p + [x] + q) == Explain(spt, p + q + [x])
    decreases |q|
  {
    MoveNoPanics(p, x, q);
    if |q| == 0 {
      assert p + [x] + q == p + q + [x];
    } else {
      var q' := q[..|q| - 1];
      var y := q[|q| - 1];
      assert q == q' + [y];
      NoPanicsConcat(q', [y]);
      MoveToEnd(spt, p, x, q');
      NoPanicsConcat(p, q');
      var a := p + [x] + q';
      var c := p + q';
      SnocAlike(spt, a, c + [x], y);
      SwapLast(spt, c, x, y);
      calc {
        Explain(spt, p + [x] + q);
        { assert p + [x] + q == a + [y]; }
        Explain(spt, a + [y]);
        Explain(spt, c + [x] + [y]);
        Explain(spt, c + [y] + [x]);
        { assert c + [y] + [x] == p + q + [x]; }
        Explain(spt, p + q + [x]);
      }
    }
  }

  /** Taking out one entry leaves the rest of the multiset. */
  lemma RemoveOne(es: seq<(string, int)>, j: int)
    requires 0 <= j < |es|
    ensures es == es[..j] + [es[j]] + es[j + 1..]
    ensures multiset(es[..j] + es[j + 1..]) == multiset(es) - multiset{es[j]}
  {
    assert es == es[..j] + [es[j]] + es[j + 1..];
  }

  /** The result does not depend on the order the map's entries are
      visited in. */
  lemma {:induction false} OrderIndependent(spt: Supporter, es1: seq<(string, int)>, es2: seq<(string, int)>)
    requires NoPanics(es1) && multiset(es1) == multiset(es2)
    ensures NoPanics(es2)
    ensures Explain(spt, es1) == Explain(spt, es2)
    decreases |es1|
  {
    NoPanicsPerm(es1, es2);
    if |es1| > 0 {
      var n := |es1| - 1;
      var x := es1[n];
      var init := es1[..n];
      NoPanicsConcat(init, [x]);
      var j := MatchLast(es1, es2);
      var p, q := es2[..j], es2[j + 1..];
      NoPanicsConcat(p + [x], q);
      NoPanicsConcat(p, [x]);
      OrderIndependent(spt, init, p + q);
      MoveToEnd(spt, p, x, q);
      ExplainSnoc(spt, init, x);
      ExplainSnoc(spt, p + q, x);
    }
  }

  /** A reordering of entries none of which panics has none that panics. */
  lemma NoPanicsPerm(es1: seq<(string, int)>, es2: seq<(string, int)>)
    requires NoPanics(es1) && multiset(es1) == multiset(es2)
    ensures NoPanics(es2)
  {
    forall i | 0 <= i < |es2|
      ensures !Panics(es2[i].0)
    {
      assert es2[i] in multiset(es1);
    }
  }

  /** The last entry of one ordering sits somewhere in the other, and the
      rest of the two are again reorderings of each other. */
  lemma MatchLast(es1: seq<(string, int)>, es2: seq<(string, int)>) returns (j: int)
    requires |es1| > 0 && multiset(es1) == multiset(es2)
    ensures 0 <= j < |es2| && es2[j] == es1[|es1| - 1]
    ensures es1 == es1[..|es1| - 1] + [es1[|es1| - 1]]
    ensures es2 == es2[..j] + [es2[j]] + es2[j + 1..]
    ensures multiset(es1[..|es1| - 1]) == multiset(es2[..j] + es2[j + 1..])
  {
    var n := |es1| - 1;
    var x := es1[n];
    assert es1 == es1[..n] + [x];
    assert multiset(es1) == multiset(es1[..n]) + multiset{x};
    assert x in multiset(es2);
    j :| 0 <= j < |es2| && es2[j] == x;
    RemoveOne(es2, j);
  }

  /** IsEmptyPOINT: no miner and no cs rate. The build-in cs rate and the
      event do not count. */
  function IsEmptyPoint(p: Point): (b: bool)
    ensures b <==> forall f :: f != BuildInCs ==> FieldOf(p, f) == 0
  {
    assert FieldOf(p, Miner) == p.minerV && FieldOf(p, Cs) == p.csV;
    p.minerV == 0 && p.csV == 0
  }

  /** A new point is empty, a point with only a build-in cs rate is empty
      too, and adding a non-zero miner or cs rate to an empty point makes it
      non-empty. */
  lemma EmptyPoints(p: Point, f: Field, d: int)
    ensures IsEmptyPoint(NewPoint)
    ensures IsEmptyPoint(Point(0, 0, p.buildInCsV, p.event))
    ensures IsEmptyPoint(p) && d != 0 ==> (IsEmptyPoint(AddTo(p, f, d)) <==> f == BuildInCs)
  {
    if IsEmptyPoint(p) && d != 0 && f != BuildInCs {
      assert FieldOf(AddTo(p, f, d), f) == d;
    }
  }

  /** NewImmutableData: one sample of the averaging data, which averages to
      that sample. */
  function NewImmutableData(d: int): (r: AvgData.Int64Avg)
    ensures r.count > 0 && AvgData.Calc(r) == d
  {
    AvgData.Gen(d)
  }

  /** A key with an account after the ':' and a proxy id before it. */
  lemma ClassifiesSample()
    ensures Split("12:w.cs", ':') == ["12", "w.cs"]
    ensures ClassOf("w.cs") == Cs && ClassOf("w.cs_buildin") == BuildInCs && ClassOf("w") == Miner
  {
    assert "12:w.cs" == "12" + [':'] + "w.cs";
    SplitFirst("12", ':', "w.cs");
    SplitNone("w.cs", ':');
  }
}
