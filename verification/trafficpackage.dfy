/** The traffic package operator over the file-backed store: the amount
    left, an all-or-nothing consumption planned across the packages in
    order, and a best-effort consumption one package at a time. */
module TrafficPackage {
  import opened Wrappers
  import opened PackageStore

  /** The left amounts of a package list, added up. */
  function Total(pkgs: seq<PackageInfo>): (r: int)
    ensures (forall i :: 0 <= i < |pkgs| ==> pkgs[i].left >= 0) ==> r >= 0
    decreases |pkgs|
  {
    if |pkgs| == 0 then 0 else pkgs[0].left + Total(pkgs[1..])
  }

  /** Every package of the list has something left (what GetPackages
      returns when empty packages are left out). */
  predicate Positive(pkgs: seq<PackageInfo>) {
    forall i :: 0 <= i < |pkgs| ==> pkgs[i].left > 0
  }

  /** The left amounts of the packages that have something left, added
      up. */
  function Left(pkgs: seq<PackageInfo>): int
    decreases |pkgs|
  {
    if |pkgs| == 0 then 0 else (if pkgs[0].left > 0 then pkgs[0].left else 0) + Left(pkgs[1..])
  }

  /** GetAmount: what the owner's packages have left. */
  function GetAmount(st: Packages, owner: nat): int {
    Left(Pkgs(st, owner))
  }

  lemma {:induction false} LeftFilter(pkgs: seq<PackageInfo>)
    ensures Left(pkgs) == Total(Filter(pkgs, false))
    decreases |pkgs|
  {
    if |pkgs| > 0 {
      LeftFilter(pkgs[1..]);
    }
  }

  /** GetAmount is the sum of the left amounts GetPackages returns when it
      leaves empty packages out. */
  lemma GetAmountSumsPackages(st: Packages, owner: nat)
    ensures GetAmount(st, owner) == Total(GetPackages(st, owner, false))
  {
    LeftFilter(Pkgs(st, owner));
  }

  /** The total a plan takes. */
  function Taken(cds: seq<ConsumeData>): int {
    if |cds| == 0 then 0 else Taken(cds[..|cds| - 1]) + cds[|cds| - 1].amount
  }

  lemma {:induction false} TakenCons(c: ConsumeData, cds: seq<ConsumeData>)
    ensures Taken([c] + cds) == c.amount + Taken(cds)
    decreases |cds|
  {
    if |cds| == 0 {
      assert ([c] + cds)[..0] == [];
    } else {
      assert ([c] + cds)[..|cds|] == [c] + cds[..|cds| - 1];
      TakenCons(c, cds[..|cds| - 1]);
    }
  }

  /** The plan ConsumeAmount builds: walk the packages in order, taking all
      that is left of each until the next one covers the rest. The second
      component is what no package covered. */
  function Plan(pkgs: seq<PackageInfo>, n: int): (r: (seq<ConsumeData>, int))
    requires n > 0 && Positive(pkgs)
    ensures |r.0| <= |pkgs|
    ensures forall k :: 0 <= k < |r.0| ==>
      r.0[k].packageId == pkgs[k].id && r.0[k].oldAmount == pkgs[k].left && 0 < r.0[k].amount <= pkgs[k].left
    ensures r.1 >= 0
    ensures r.1 == 0 <==> n <= Total(pkgs)
    ensures r.1 == 0 ==> Taken(r.0) == n
    ensures r.1 > 0 ==> r.1 == n - Total(pkgs)
    decreases |pkgs|
  {
    if |pkgs| == 0 then ([], n)
    else
      var p := pkgs[0];
      assert Positive(pkgs[1..]);
      if n <= p.left then
        assert Taken([ConsumeData(p.id, n, p.left)]) == n by {
          TakenCons(ConsumeData(p.id, n, p.left), []);
        }
        ([ConsumeData(p.id, n, p.left)], 0)
      else
        var rest := Plan(pkgs[1..], n - p.left);
        TakenCons(ConsumeData(p.id, p.left, p.left), rest.0);
        ([ConsumeData(p.id, p.left, p.left)] + rest.0, rest.1)
  }

  /** ConsumeAmount: nothing to do for n <= 0; OutOfRange, without touching
      the store, when the packages do not cover n; otherwise the whole plan
      goes to the store's Consume in one change. */
  function ConsumeAmount(st: Packages, owner: nat, n: int): (r: Outcome)
    ensures n <= 0 ==> r == Outcome(st, None)
    ensures n > GetAmount(st, owner) && n > 0 ==> r == Outcome(st, Some(OutOfRange))
    ensures r.err.Some? ==> r.store == st
  {
    if n <= 0 then Outcome(st, None)
    else
      var pkgs := GetPackages(st, owner, false);
      GetAmountSumsPackages(st, owner);
      var plan := Plan(pkgs, n);
      if plan.1 > 0 then Outcome(st, Some(OutOfRange))
      else Consume(st, owner, plan.0)
  }

  /** What a plan takes from each package of a list, added up. */
  function NamedTotal(pkgs: seq<PackageInfo>, cds: seq<ConsumeData>): int
    decreases |pkgs|
  {
    if |pkgs| == 0 then 0 else Named(cds, pkgs[0].id) + NamedTotal(pkgs[1..], cds)
  }

  /** What one plan line takes from the packages of a list, added up. */
  function Hits(pkgs: seq<PackageInfo>, c: ConsumeData): int
    decreases |pkgs|
  {
    if |pkgs| == 0 then 0 else (if pkgs[0].id == c.packageId then c.amount else 0) + Hits(pkgs[1..], c)
  }

  lemma {:induction false} NamedTotalSnoc(pkgs: seq<PackageInfo>, cds: seq<ConsumeData>, c: ConsumeData)
    ensures NamedTotal(pkgs, cds + [c]) == NamedTotal(pkgs, cds) + Hits(pkgs, c)
    decreases |pkgs|
  {
    if |pkgs| > 0 {
      assert (cds + [c])[..|cds|] == cds;
      NamedTotalSnoc(pkgs[1..], cds, c);
    }
  }

  lemma {:induction false} HitsNone(pkgs: seq<PackageInfo>, c: ConsumeData)
    requires forall i :: 0 <= i < |pkgs| ==> pkgs[i].id != c.packageId
    ensures Hits(pkgs, c) == 0
    decreases |pkgs|
  {
    if |pkgs| > 0 {
      HitsNone(pkgs[1..], c);
    }
  }

  /** With unique ids, a line naming a stored package hits it exactly once. */
  lemma {:induction false} HitsOnce(pkgs: seq<PackageInfo>, c: ConsumeData)
    requires UniqueIds(pkgs) && Find(pkgs, c.packageId).Some?
    ensures Hits(pkgs, c) == c.amount
    decreases |pkgs|
  {
    if pkgs[0].id == c.packageId {
      HitsNone(pkgs[1..], c);
    } else {
      assert Find(pkgs[1..], c.packageId).Some?;
      HitsOnce(pkgs[1..], c);
    }
  }

  /** A plan whose lines all name stored packages with unique ids takes,
      over all packages, exactly its own total. */
  lemma {:induction false} NamedTotalIsTaken(pkgs: seq<PackageInfo>, cds: seq<ConsumeData>)
    requires UniqueIds(pkgs)
    requires forall k :: 0 <= k < |cds| ==> Find(pkgs, cds[k].packageId).Some?
    ensures NamedTotal(pkgs, cds) == Taken(cds)
    decreases |cds|
  {
    if |cds| == 0 {
      NamedTotalZero(pkgs, cds);
    } else {
      var p := cds[..|cds| - 1];
      assert cds == p + [cds[|cds| - 1]];
      NamedTotalIsTaken(pkgs, p);
      NamedTotalSnoc(pkgs, p, cds[|cds| - 1]);
      HitsOnce(pkgs, cds[|cds| - 1]);
    }
  }

  lemma {:induction false} NamedTotalZero(pkgs: seq<PackageInfo>, cds: seq<ConsumeData>)
    requires |cds| == 0
    ensures NamedTotal(pkgs, cds) == 0
    decreases |pkgs|
  {
    if |pkgs| > 0 {
      NamedTotalZero(pkgs[1..], cds);
    }
  }

  /** Lowering each package by what the plan names for it lowers the total
      by the plan's sum over the list. */
  lemma {:induction false} TotalMinus(x: seq<PackageInfo>, y: seq<PackageInfo>, cds: seq<ConsumeData>)
    requires |x| == |y|
    requires forall i :: 0 <= i < |x| ==> y[i].left == x[i].left - Named(cds, x[i].id)
    ensures Total(y) == Total(x) - NamedTotal(x, cds)
    decreases |x|
  {
    if |x| > 0 {
      TotalMinus(x[1..], y[1..], cds);
    }
  }

  /** Without negative left amounts, leaving out empty packages does not
      change the total. */
  lemma {:induction false} LeftTotal(pkgs: seq<PackageInfo>)
    requires forall i :: 0 <= i < |pkgs| ==> pkgs[i].left >= 0
    ensures Left(pkgs) == Total(pkgs)
    decreases |pkgs|
  {
    if |pkgs| > 0 {
      LeftTotal(pkgs[1..]);
    }
  }

  lemma {:induction false} FilterUnique(pkgs: seq<PackageInfo>)
    requires UniqueIds(pkgs)
    ensures UniqueIds(Filter(pkgs, false))
    decreases |pkgs|
  {
    if |pkgs| > 0 {
      FilterUnique(pkgs[1..]);
      var rest := Filter(pkgs[1..], false);
      assert forall j :: 0 <= j < |rest| ==> rest[j] in pkgs[1..];
    }
  }

  lemma {:induction false} LeftAppend(pkgs: seq<PackageInfo>, x: PackageInfo)
    requires x.left > 0
    ensures Left(pkgs + [x]) == Left(pkgs) + x.left
    decreases |pkgs|
  {
    if |pkgs| == 0 {
      assert ([x])[1..] == [];
    } else {
      assert (pkgs + [x])[1..] == pkgs[1..] + [x];
      LeftAppend(pkgs[1..], x);
    }
  }

  /** A store change that consumes a plan with distinct targets keeps the
      store valid and lowers the owner's amount by exactly the plan's total;
      other owners are untouched. */
  lemma ConsumeLowers(st: Packages, owner: nat, cds: seq<ConsumeData>)
    requires Valid(st) && DistinctTargets(cds)
    requires Consume(st, owner, cds).err.None?
    ensures Valid(Consume(st, owner, cds).store)
    ensures GetAmount(Consume(st, owner, cds).store, owner) == GetAmount(st, owner) - Taken(cds)
    ensures forall o :: o != owner ==> Pkgs(Consume(st, owner, cds).store, o) == Pkgs(st, o)
  {
    var pkgs := st[owner];
    var after := Apply(pkgs, cds);
    var r := Consume(st, owner, cds);
    assert r.store[owner] == after;
    assert ConsumeChecked(st, owner, cds) == r;
    ConsumeCheckedKeepsValid(st, owner, cds);
    LeftTotal(pkgs);
    LeftTotal(after);
    TotalMinus(pkgs, after, cds);
    assert forall k :: 0 <= k < |cds| ==> Accepts(pkgs, cds[k]);
    NamedTotalIsTaken(pkgs, cds);
  }

  /** A non-empty package GetPackages returned is found at its own place in
      the store. */
  lemma FoundInStore(st: Packages, owner: nat, p: PackageInfo)
    requires Valid(st) && p in Pkgs(st, owner)
    ensures owner in st && Find(st[owner], p.id).Some? && st[owner][Find(st[owner], p.id).value] == p
  {
    var i :| 0 <= i < |st[owner]| && st[owner][i] == p;
    FindUnique(st[owner], i);
  }

  /** ConsumeAmount on a valid store succeeds exactly when the packages
      cover n, and then lowers the amount by n and keeps the store valid. */
  lemma ConsumeAmountSpec(st: Packages, owner: nat, n: int)
    requires Valid(st) && n > 0
    ensures ConsumeAmount(st, owner, n).err.None? <==> n <= GetAmount(st, owner)
    ensures ConsumeAmount(st, owner, n).err.Some? ==> ConsumeAmount(st, owner, n) == Outcome(st, Some(OutOfRange))
    ensures ConsumeAmount(st, owner, n).err.None? ==>
      GetAmount(ConsumeAmount(st, owner, n).store, owner) == GetAmount(st, owner) - n &&
      Valid(ConsumeAmount(st, owner, n).store)
  {
    var pkgs := GetPackages(st, owner, false);
    var plan := Plan(pkgs, n);
    GetAmountSumsPackages(st, owner);
    if plan.1 == 0 {
      var cds := plan.0;
      if owner in st {
        FilterUnique(st[owner]);
      }
      assert DistinctTargets(cds);
      forall k | 0 <= k < |cds|
        ensures Accepts(st[owner], cds[k])
      {
        assert pkgs[k] in pkgs;
        FoundInStore(st, owner, pkgs[k]);
      }
      ConsumeLowers(st, owner, cds);
    }
  }

  /** AddPackage raises the amount by the new package's amount. */
  lemma AddPackageRaises(st: Packages, owner: nat, pid: nat, generated: nat, amount: int, at: int)
    ensures var r := AddPackage(st, owner, pid, generated, amount, at);
            r.1.Ok? ==> GetAmount(r.0, owner) == GetAmount(st, owner) + amount
  {
    var r := AddPackage(st, owner, pid, generated, amount, at);
    if r.1.Ok? {
      var x := PackageInfo(r.1.value, amount, at, amount);
      LeftAppend(Pkgs(st, owner), x);
    }
  }

  /** A single-line Consume taking `take` from a package. */
  function TakeFrom(st: Packages, owner: nat, info: PackageInfo, take: int): Outcome {
    Consume(st, owner, [ConsumeData(info.id, take, info.left)])
  }

  /** One single-line Consume of a package GetPackages returned: it
      succeeds, lowers the amount by the line's take, keeps the store valid
      and leaves every other package of the owner where it was. */
  lemma ConsumeOne(st: Packages, owner: nat, info: PackageInfo, take: int)
    requires Valid(st) && info in Pkgs(st, owner) && take <= info.left
    ensures var o := TakeFrom(st, owner, info, take);
            o.err.None? && Valid(o.store) &&
            GetAmount(o.store, owner) == GetAmount(st, owner) - take &&
            forall p :: p in Pkgs(st, owner) && p.id != info.id ==> p in Pkgs(o.store, owner)
  {
    var cd := ConsumeData(info.id, take, info.left);
    FoundInStore(st, owner, info);
    assert Accepts(st[owner], [cd][0]);
    var o := Consume(st, owner, [cd]);
    ConsumeLowers(st, owner, [cd]);
    assert [cd][..0] == [];
    assert Taken([cd]) == take;
    forall p | p in Pkgs(st, owner) && p.id != info.id
      ensures p in Pkgs(o.store, owner)
    {
      var j :| 0 <= j < |st[owner]| && st[owner][j] == p;
      assert Named([cd], p.id) == 0;
      assert o.store[owner][j] == p;
    }
  }

  /** The packages after position i, all stored before a change that
      keeps every package with another id than package i's, are still
      stored after it. */
  lemma StillStored(pkgs: seq<PackageInfo>, i: nat, before: seq<PackageInfo>, after: seq<PackageInfo>)
    requires i < |pkgs| && UniqueIds(pkgs)
    requires forall j :: i <= j < |pkgs| ==> pkgs[j] in before
    requires forall p :: p in before && p.id != pkgs[i].id ==> p in after
    ensures forall j :: i + 1 <= j < |pkgs| ==> pkgs[j] in after
  {
  }

  /** One store change of the best-effort loop, on package i of the list
      GetPackages returned: the single-line Consume, or a failure outside
      the model when `failing`. On a valid store that still holds the
      packages from i on, the change is accepted, lowers the amount by the
      take and leaves the later packages in place. */
  method ConsumeStep(store: Packages, owner: nat, pkgs: seq<PackageInfo>, i: nat, take: int, failing: bool)
    returns (o: Outcome)
    requires i < |pkgs|
    ensures failing ==> o == Outcome(store, Some(Io))
    ensures !failing ==> (o.err.None? <==> owner in store && Accepts(store[owner], ConsumeData(pkgs[i].id, take, pkgs[i].left)))
    ensures o.err.Some? ==> o.store == store
    ensures Valid(store) && UniqueIds(pkgs) && take <= pkgs[i].left && !failing &&
            (forall j :: i <= j < |pkgs| ==> pkgs[j] in Pkgs(store, owner)) ==>
      o.err.None? && Valid(o.store) &&
      GetAmount(o.store, owner) == GetAmount(store, owner) - take &&
      forall j :: i + 1 <= j < |pkgs| ==> pkgs[j] in Pkgs(o.store, owner)
  {
    var info := pkgs[i];
    if failing {
      o := Outcome(store, Some(Io));
    } else {
      o := TakeFrom(store, owner, info, take);
      assert [ConsumeData(info.id, take, info.left)][0] == ConsumeData(info.id, take, info.left);
      if Valid(store) && UniqueIds(pkgs) && take <= info.left && forall j :: i <= j < |pkgs| ==> pkgs[j] in Pkgs(store, owner) {
        ConsumeOne(store, owner, info, take);
        StillStored(pkgs, i, Pkgs(store, owner), Pkgs(o.store, owner));
      }
    }
  }

  lemma {:induction false} TotalConcat(a: seq<PackageInfo>, b: seq<PackageInfo>)
    ensures Total(a + b) == Total(a) + Total(b)
    decreases |a|
  {
    if |a| == 0 {
      assert a + b == b;
    } else {
      assert (a + b)[1..] == a[1..] + b;
      TotalConcat(a[1..], b);
    }
  }

  /** The prefix totals of a list grow by one package at a time and, when
      every package has something left, never exceed the whole. */
  lemma TotalPrefix(pkgs: seq<PackageInfo>, i: nat)
    requires i < |pkgs| && Positive(pkgs)
    ensures Total(pkgs[..i + 1]) == Total(pkgs[..i]) + pkgs[i].left
    ensures Total(pkgs[..i + 1]) <= Total(pkgs)
  {
    TotalStep(pkgs, i);
    TotalSplit(pkgs, i + 1);
    PositiveSuffix(pkgs, i + 1);
  }

  /** Extending a prefix by one package adds its left amount. */
  lemma TotalStep(pkgs: seq<PackageInfo>, i: nat)
    requires i < |pkgs|
    ensures Total(pkgs[..i + 1]) == Total(pkgs[..i]) + pkgs[i].left
  {
    assert pkgs[..i + 1] == pkgs[..i] + [pkgs[i]];
    TotalConcat(pkgs[..i], [pkgs[i]]);
    assert [pkgs[i]][1..] == [];
  }

  /** The total of a list is that of a prefix plus that of the rest. */
  lemma TotalSplit(pkgs: seq<PackageInfo>, k: nat)
    requires k <= |pkgs|
    ensures Total(pkgs) == Total(pkgs[..k]) + Total(pkgs[k..])
  {
    assert pkgs == pkgs[..k] + pkgs[k..];
    TotalConcat(pkgs[..k], pkgs[k..]);
  }

  /** A suffix of a list whose packages all have something left has a
      non-negative total. */
  lemma PositiveSuffix(pkgs: seq<PackageInfo>, k: nat)
    requires Positive(pkgs) && k <= |pkgs|
    ensures Total(pkgs[k..]) >= 0
  {
    var suffix := pkgs[k..];
    assert forall j :: 0 <= j < |suffix| ==> suffix[j] == pkgs[k + j];
  }

  /** The loop of TryConsumeAmount over the non-empty packages `pkgs` of
      `owner`: `rem` is what is still missing when it stops. A failed
      change ends it, reported only when nothing was consumed yet. */
  method ConsumeLoop(st: Packages, owner: nat, n: int, pkgs: seq<PackageInfo>, failAt: Option<nat>)
    returns (store: Packages, rem: int, err: Option<Code>)
    requires n > 0 && Positive(pkgs)
    requires Valid(st) ==> UniqueIds(pkgs) && forall j :: 0 <= j < |pkgs| ==> pkgs[j] in Pkgs(st, owner)
    ensures 0 <= rem <= n && n - rem <= Total(pkgs)
    ensures err.Some? ==> rem == n && store == st
    ensures Valid(st) ==> Valid(store) && GetAmount(store, owner) == GetAmount(st, owner) - (n - rem)
    ensures Valid(st) && failAt.None? ==> err.None? && (rem == 0 || n - rem == Total(pkgs))
    ensures failAt == Some(0) && |pkgs| > 0 ==> err == Some(Io)
  {
    store, rem, err := st, n, None;
    var i := 0;
    while i < |pkgs|
      invariant 0 <= i <= |pkgs|
      invariant 0 < rem <= n && err.None?
      invariant rem == n - Total(pkgs[..i])
      invariant i == 0 ==> store == st
      invariant failAt == Some(0) ==> i == 0
      invariant i > 0 ==> rem < n
      invariant Valid(st) ==> Valid(store) && GetAmount(store, owner) == GetAmount(st, owner) - (n - rem)
      invariant Valid(st) ==> forall j :: i <= j < |pkgs| ==> pkgs[j] in Pkgs(store, owner)
    {
      var info := pkgs[i];
      TotalPrefix(pkgs, i);
      var take := if rem <= info.left then rem else info.left;
      var o := ConsumeStep(store, owner, pkgs, i, take, failAt == Some(i));
      if o.err.Some? {
        err := if rem != n then None else o.err;
        return;
      }
      store := o.store;
      if rem <= info.left {
        rem := 0;
        return;
      }
      rem := rem - info.left;
      i := i + 1;
    }
    assert pkgs[..i] == pkgs;
  }

  /** TryConsumeAmount: consumes what it can, up to n, one single-line
      Consume per non-empty package in order. A failed change ends the
      loop; its error is reported only when nothing was consumed yet, and
      then the store is unchanged. `failAt` is the index of the first change
      that fails for reasons outside the model (a failed save), if any. On
      a valid store without such failures it consumes min(n, amount). */
  method TryConsumeAmount(st: Packages, owner: nat, n: int, failAt: Option<nat>)
    returns (store: Packages, consumed: int, err: Option<Code>)
    ensures n <= 0 ==> store == st && consumed == 0 && err.None?
    ensures n > 0 ==> 0 <= consumed <= n
    ensures err.Some? ==> consumed == 0 && store == st
    ensures Valid(st) ==> Valid(store) && GetAmount(store, owner) == GetAmount(st, owner) - consumed
    ensures n > 0 && Valid(st) && failAt.None? ==>
      err.None? && consumed == (if n <= GetAmount(st, owner) then n else GetAmount(st, owner))
    ensures n > 0 && failAt == Some(0) && GetAmount(st, owner) > 0 ==> err == Some(Io)
  {
    store, consumed, err := st, 0, None;
    if n <= 0 {
      return;
    }
    var pkgs := GetPackages(st, owner, false);
    GetAmountSumsPackages(st, owner);
    if owner in st && Valid(st) {
      FilterUnique(st[owner]);
    }
    assert Positive(pkgs) by {
      forall j | 0 <= j < |pkgs|
        ensures pkgs[j].left > 0
      {
        assert pkgs[j] in pkgs;
      }
    }
    var rem;
    store, rem, err := ConsumeLoop(st, owner, n, pkgs, failAt);
    consumed := n - rem;
  }
}
