/** The file-backed traffic package store: per owner, the packages in the
    order they were added, each with its original and its left amount. */
module PackageStore {
  import opened Wrappers

  datatype PackageInfo = PackageInfo(id: nat, amount: int, at: int, left: int)

  /** One line of a consumption plan: take `amount` from the package, whose
      left amount the planner saw as `oldAmount`. */
  datatype ConsumeData = ConsumeData(packageId: nat, amount: int, oldAmount: int)

  /** Owner id to packages. */
  type Packages = map<nat, seq<PackageInfo>>

  /** The packages of `owner` (none for an unknown owner). */
  function Pkgs(st: Packages, owner: nat): seq<PackageInfo> {
    if owner in st then st[owner] else []
  }

  /** The position of the first package with id `pid`. */
  function Find(pkgs: seq<PackageInfo>, pid: nat): (r: Option<nat>)
    ensures r.Some? ==> r.value < |pkgs| && pkgs[r.value].id == pid
    ensures r.Some? ==> forall j :: 0 <= j < r.value ==> pkgs[j].id != pid
    ensures r.None? <==> forall j :: 0 <= j < |pkgs| ==> pkgs[j].id != pid
    decreases |pkgs|
  {
    if |pkgs| == 0 then None
    else if pkgs[0].id == pid then Some(0)
    else match Find(pkgs[1..], pid)
      case None => None
      case Some(k) => Some(k + 1)
  }

  /** No two packages of one owner share an id. */
  predicate UniqueIds(pkgs: seq<PackageInfo>) {
    forall i, j :: 0 <= i < j < |pkgs| ==> pkgs[i].id != pkgs[j].id
  }

  /** The store invariant AddPackage keeps: ids unique per owner and no
      left amount below zero. */
  predicate Valid(st: Packages) {
    forall o :: o in st ==> UniqueIds(st[o]) && forall i :: 0 <= i < |st[o]| ==> st[o][i].left >= 0
  }

  /** With unique ids, the package at position i is the one Find returns. */
  lemma FindUnique(pkgs: seq<PackageInfo>, i: nat)
    requires UniqueIds(pkgs) && i < |pkgs|
    ensures Find(pkgs, pkgs[i].id) == Some(i)
  {
  }

  /** GetPackageInfo: the first package with the id; NotFound for an unknown
      owner or package. */
  function GetPackageInfo(st: Packages, owner: nat, pid: nat): (r: Result<PackageInfo>)
    ensures r.Ok? ==> owner in st && r.value in st[owner] && r.value.id == pid
    ensures r.Err? ==> r.code == NotFound
    ensures r.Err? <==> owner !in st || forall j :: 0 <= j < |st[owner]| ==> st[owner][j].id != pid
  {
    if owner !in st then Err(NotFound)
    else match Find(st[owner], pid)
      case None => Err(NotFound)
      case Some(i) => Ok(st[owner][i])
  }

  /** The packages kept by GetPackages, in their stored order. */
  function Filter(pkgs: seq<PackageInfo>, includeEmpty: bool): (r: seq<PackageInfo>)
    ensures forall p :: p in r <==> p in pkgs && (includeEmpty || p.left > 0)
    ensures includeEmpty ==> r == pkgs
    decreases |pkgs|
  {
    if |pkgs| == 0 then []
    else
      var rest := Filter(pkgs[1..], includeEmpty);
      assert pkgs == [pkgs[0]] + pkgs[1..];
      if includeEmpty || pkgs[0].left > 0 then [pkgs[0]] + rest else rest
  }

  /** GetPackages: all packages, or only those with something left; an
      unknown owner has none (and no error). */
  function GetPackages(st: Packages, owner: nat, includeEmpty: bool): (r: seq<PackageInfo>)
    ensures forall p :: p in r <==> p in Pkgs(st, owner) && (includeEmpty || p.left > 0)
    ensures owner !in st ==> r == []
  {
    Filter(Pkgs(st, owner), includeEmpty)
  }

  /** The check Consume makes of one plan line against the stored packages. */
  function Check(pkgs: seq<PackageInfo>, cd: ConsumeData): (r: Option<Code>)
    ensures r.None? <==> Accepts(pkgs, cd)
  {
    match Find(pkgs, cd.packageId)
    case None => Some(NotFound)
    case Some(i) =>
      if pkgs[i].left != cd.oldAmount then Some(Reject)
      else if cd.amount > pkgs[i].left then Some(OutOfRange)
      else None
  }

  /** A plan line names a stored package, saw its current left amount and
      takes no more than is left. */
  predicate Accepts(pkgs: seq<PackageInfo>, cd: ConsumeData) {
    Find(pkgs, cd.packageId).Some? &&
    pkgs[Find(pkgs, cd.packageId).value].left == cd.oldAmount &&
    cd.amount <= pkgs[Find(pkgs, cd.packageId).value].left
  }

  /** The first failing plan line's error; every line is checked against the
      packages as they were before any of them is applied. */
  function Validate(pkgs: seq<PackageInfo>, cds: seq<ConsumeData>): (r: Option<Code>)
    ensures r.None? <==> forall k :: 0 <= k < |cds| ==> Accepts(pkgs, cds[k])
    ensures r.Some? ==> r.value in {NotFound, Reject, OutOfRange}
    decreases |cds|
  {
    if |cds| == 0 then None
    else match Check(pkgs, cds[0])
      case Some(e) => Some(e)
      case None =>
        var rest := Validate(pkgs, cds[1..]);
        assert forall k :: 1 <= k < |cds| ==> cds[k] == cds[1..][k - 1];
        rest
  }

  /** The total a plan takes from package `pid`. */
  function Named(cds: seq<ConsumeData>, pid: nat): int {
    if |cds| == 0 then 0
    else Named(cds[..|cds| - 1], pid) + (if cds[|cds| - 1].packageId == pid then cds[|cds| - 1].amount else 0)
  }

  function ApplyOne(pkgs: seq<PackageInfo>, cd: ConsumeData): seq<PackageInfo> {
    match Find(pkgs, cd.packageId)
    case None => pkgs
    case Some(i) => pkgs[i := pkgs[i].(left := pkgs[i].left - cd.amount)]
  }

  /** Applying a plan line by line: each line lowers the first package with
      its id. With unique ids, every package loses what the plan names for
      it, and nothing else changes. */
  function Apply(pkgs: seq<PackageInfo>, cds: seq<ConsumeData>): (r: seq<PackageInfo>)
    ensures |r| == |pkgs|
    ensures forall i :: 0 <= i < |pkgs| ==> r[i].id == pkgs[i].id
    ensures UniqueIds(pkgs) ==>
      forall i :: 0 <= i < |pkgs| ==> r[i] == pkgs[i].(left := pkgs[i].left - Named(cds, pkgs[i].id))
    decreases |cds|
  {
    if |cds| == 0 then pkgs
    else
      var prev := Apply(pkgs, cds[..|cds| - 1]);
      var cd := cds[|cds| - 1];
      assert UniqueIds(pkgs) ==> UniqueIds(prev);
      assert UniqueIds(pkgs) && Find(prev, cd.packageId).Some? ==>
        (forall i :: 0 <= i < |pkgs| && i != Find(prev, cd.packageId).value ==> pkgs[i].id != cd.packageId);
      ApplyOne(prev, cd)
  }

  /** The result of a store change: the new store and the error, if any. */
  datatype Outcome = Outcome(store: Packages, err: Option<Code>)

  /** Consume as written: NotFound for an unknown owner; every plan line is
      validated against the unchanged packages, then all are applied. */
  function Consume(st: Packages, owner: nat, cds: seq<ConsumeData>): (r: Outcome)
    ensures r.err.Some? ==> r.store == st
    ensures r.err.None? <==> owner in st && forall k :: 0 <= k < |cds| ==> Accepts(st[owner], cds[k])
    ensures owner !in st ==> r.err == Some(NotFound)
    ensures r.err.None? ==> r.store == st[owner := Apply(st[owner], cds)]
  {
    if owner !in st then Outcome(st, Some(NotFound))
    else match Validate(st[owner], cds)
      case Some(e) => Outcome(st, Some(e))
      case None => Outcome(st[owner := Apply(st[owner], cds)], None)
  }

  /** The plan lines name pairwise different packages. */
  predicate DistinctTargets(cds: seq<ConsumeData>) {
    forall a, b :: 0 <= a < b < |cds| ==> cds[a].packageId != cds[b].packageId
  }

  /** Consume with the missing check: a plan that names a package twice is
      rejected, so each line's validation covers all the plan takes. */
  function ConsumeChecked(st: Packages, owner: nat, cds: seq<ConsumeData>): (r: Outcome)
    ensures r.err.Some? ==> r.store == st
    ensures r.err.None? <==> owner in st && DistinctTargets(cds) && forall k :: 0 <= k < |cds| ==> Accepts(st[owner], cds[k])
    ensures r.err.None? ==> r.store == Consume(st, owner, cds).store
  {
    if owner in st && !DistinctTargets(cds) then Outcome(st, Some(Reject))
    else Consume(st, owner, cds)
  }

  /** With distinct targets, what the plan takes from a package is the one
      line naming it (or nothing). */
  lemma {:induction false} NamedDistinct(cds: seq<ConsumeData>, pid: nat)
    requires DistinctTargets(cds)
    ensures (forall k :: 0 <= k < |cds| ==> cds[k].packageId != pid) ==> Named(cds, pid) == 0
    ensures forall k :: 0 <= k < |cds| && cds[k].packageId == pid ==> Named(cds, pid) == cds[k].amount
    decreases |cds|
  {
    if |cds| > 0 {
      var p := cds[..|cds| - 1];
      assert forall k :: 0 <= k < |p| ==> p[k] == cds[k];
      NamedDistinct(p, pid);
    }
  }

  /** The corrected Consume keeps the store valid: no left amount drops
      below zero, and each named package loses exactly its line's amount. */
  lemma ConsumeCheckedKeepsValid(st: Packages, owner: nat, cds: seq<ConsumeData>)
    requires Valid(st)
    ensures ConsumeChecked(st, owner, cds).err.None? ==> Valid(ConsumeChecked(st, owner, cds).store)
  {
    var r := ConsumeChecked(st, owner, cds);
    if r.err.None? {
      var pkgs := st[owner];
      var after := Apply(pkgs, cds);
      assert r.store == st[owner := after];
      forall i | 0 <= i < |pkgs|
        ensures after[i].left >= 0
      {
        NamedDistinct(cds, pkgs[i].id);
        if k :| 0 <= k < |cds| && cds[k].packageId == pkgs[i].id {
          assert Accepts(pkgs, cds[k]);
          FindUnique(pkgs, i);
        }
      }
    }
  }

  /** As written, a plan naming one package twice passes validation line by
      line and drives its left amount below zero. */
  lemma ConsumeOverdraws()
    ensures var st := map[1 := [PackageInfo(7, 10, 0, 10)]];
            var r := Consume(st, 1, [ConsumeData(7, 6, 10), ConsumeData(7, 6, 10)]);
            r.err.None? && r.store[1][0].left == -2 && !Valid(r.store)
  {
    var st := map[1 := [PackageInfo(7, 10, 0, 10)]];
    var cds := [ConsumeData(7, 6, 10), ConsumeData(7, 6, 10)];
    assert Accepts(st[1], cds[0]) && Accepts(st[1], cds[1]);
    assert UniqueIds(st[1]);
    assert Named(cds, 7) == 12 by {
      assert cds[..1] == [ConsumeData(7, 6, 10)];
      assert cds[..1][..0] == [];
    }
  }

  /** AddPackage: id 0 asks for a generated id (`generated`, the snowflake
      reading); a non-positive amount is InvalidArgument, a duplicate id
      AlreadyExists; otherwise the package is appended with all of its
      amount left, creating the owner's entry when needed. */
  function AddPackage(st: Packages, owner: nat, pid: nat, generated: nat, amount: int, at: int): (r: (Packages, Result<nat>))
    ensures r.1.Err? ==> r.0 == st
    ensures amount <= 0 ==> r.1 == Err(InvalidArgument)
    ensures r.1.Ok? ==> r.1.value == (if pid == 0 then generated else pid)
    ensures r.1.Ok? ==> r.0 == st[owner := Pkgs(st, owner) + [PackageInfo(r.1.value, amount, at, amount)]]
    ensures amount > 0 ==> (r.1.Ok? <==> forall j :: 0 <= j < |Pkgs(st, owner)| ==> Pkgs(st, owner)[j].id != (if pid == 0 then generated else pid))
  {
    var id := if pid == 0 then generated else pid;
    if amount <= 0 then (st, Err(InvalidArgument))
    else if Find(Pkgs(st, owner), id).Some? then (st, Err(AlreadyExists))
    else (st[owner := Pkgs(st, owner) + [PackageInfo(id, amount, at, amount)]], Ok(id))
  }

  /** AddPackage keeps the store valid, and the new package reads back. */
  lemma AddPackageKeepsValid(st: Packages, owner: nat, pid: nat, generated: nat, amount: int, at: int)
    requires Valid(st)
    ensures Valid(AddPackage(st, owner, pid, generated, amount, at).0)
    ensures var r := AddPackage(st, owner, pid, generated, amount, at);
            r.1.Ok? ==> GetPackageInfo(r.0, owner, r.1.value) == Ok(PackageInfo(r.1.value, amount, at, amount))
  {
    var r := AddPackage(st, owner, pid, generated, amount, at);
    if r.1.Ok? {
      var pkgs := Pkgs(st, owner) + [PackageInfo(r.1.value, amount, at, amount)];
      assert UniqueIds(pkgs);
      assert Find(pkgs, r.1.value) == Some(|pkgs| - 1) by {
        FindUnique(pkgs, |pkgs| - 1);
      }
    }
  }
}
