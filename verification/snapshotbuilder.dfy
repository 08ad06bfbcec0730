/** The background snapshot builder: for a finished pool, replay its logs
    over the state seeded from the previous pool's snapshot and store the
    result next to the pool. The intended meaning of a stored snapshot is
    "the record state after every log of pools 0..i"; building from an
    empty seed when the previous snapshot is missing breaks that meaning,
    so the builder used here skips such a pool, and the source's behaviour
    is kept beside it for comparison. */
module SnapshotBuilder {
  import opened Wrappers
  import opened SyncModel
  import opened LogPool
  import opened Syncer
  import opened SyncRead
  import RC = RecordCache
  import R = Reducer
  import PM = PluginManager

  // ---------------------------------------------------------------------
  // The record half of the replay

  /** What one log does to the record rows: plugin logs leave them alone,
      a rejected record log changes nothing. */
  function RecordStep(c: RC.Cache, log: Log): (r: RC.Cache)
    ensures log.pluginId != "" ==> r == c
    ensures log.pluginId == "" && log.op.Add? && R.ApplyAdd(c, log.recordId, log.ds, log.newVersionId).Ok? ==>
      r == R.ApplyAdd(c, log.recordId, log.ds, log.newVersionId).value
    ensures log.pluginId == "" && log.op.Del? && R.ApplyDel(c, log.recordId, log.versionId).Ok? ==>
      r == R.ApplyDel(c, log.recordId, log.versionId).value
    ensures (log.pluginId == "" && log.op.Change? &&
             R.ApplyChange(c, log.recordId, log.versionId, log.ds, log.newVersionId).Ok?) ==>
      r == R.ApplyChange(c, log.recordId, log.versionId, log.ds, log.newVersionId).value
  {
    if log.pluginId != "" then c
    else
      var res := match log.op
        case Add => R.ApplyAdd(c, log.recordId, log.ds, log.newVersionId)
        case Del => R.ApplyDel(c, log.recordId, log.versionId)
        case Change => R.ApplyChange(c, log.recordId, log.versionId, log.ds, log.newVersionId)
        case _ => Err(Logic);
      if res.Ok? then res.value else c
  }

  /** The record rows after a sequence of logs. */
  function ReplayRecords(c: RC.Cache, logs: seq<Log>): RC.Cache
    decreases |logs|
  {
    if |logs| == 0 then c else RecordStep(ReplayRecords(c, logs[..|logs| - 1]), logs[|logs| - 1])
  }

  /** The reducer's record rows are exactly the record half of the replay:
      they depend on the starting rows and the logs, never on the plugins. */
  lemma {:induction false} ReplayRecordsAgree(r: R.Reducer, logs: seq<Log>)
    ensures R.Replay(r, logs).records == ReplayRecords(r.records, logs)
    decreases |logs|
  {
    if |logs| > 0 {
      ReplayRecordsAgree(r, logs[..|logs| - 1]);
    }
  }

  lemma {:induction false} ReplayRecordsConcat(c: RC.Cache, a: seq<Log>, b: seq<Log>)
    ensures ReplayRecords(c, a + b) == ReplayRecords(ReplayRecords(c, a), b)
    decreases |b|
  {
    if |b| == 0 {
      assert a + b == a;
    } else {
      assert (a + b)[..|a + b| - 1] == a + b[..|b| - 1];
      ReplayRecordsConcat(c, a, b[..|b| - 1]);
    }
  }

  /** Replay keeps every row filed under its own ID. */
  lemma {:induction false} ReplayRecordsKeyed(c: RC.Cache, logs: seq<Log>)
    requires RC.KeyedById(c)
    ensures RC.KeyedById(ReplayRecords(c, logs))
    decreases |logs|
  {
    if |logs| > 0 {
      ReplayRecordsKeyed(c, logs[..|logs| - 1]);
    }
  }

  /** The record state after every log of pools 0..i, from nothing. */
  function History(st: Store, i: nat): RC.Cache {
    ReplayRecords(map[], Flat(st, i + 1))
  }

  /** Each pool's history extends the previous pool's. */
  lemma HistoryStep(st: Store, i: nat)
    requires i > 0
    ensures History(st, i) == ReplayRecords(History(st, i - 1), PoolOf(st, i))
  {
    ReplayRecordsConcat(map[], Flat(st, i), PoolOf(st, i));
  }

  /** Every stored snapshot seeds exactly the history of its pool. */
  ghost predicate SnapInv(st: Store) {
    forall j :: j in st.snapshots ==> RC.Init(Some(st.snapshots[j])) == History(st, j)
  }

  // ---------------------------------------------------------------------
  // Building one snapshot

  /** The record rows buildSnapshotOnRoutine exports for pool i: pool i's
      logs replayed over the reducer seeded from GetLastSnapshotData(i). */
  function BuildRecords(st: Store, i: nat, generators: Option<map<string, PM.Generator>>): (c: RC.Cache)
    ensures c == ReplayRecords(RC.Init(LastSnapshot(st, i)), PoolOf(st, i))
    ensures RC.KeyedById(c)
  {
    var r := R.NewSnapshot(LastSnapshot(st, i), generators);
    ReplayRecordsAgree(r, PoolOf(st, i));
    ReplayRecordsKeyed(r.records, PoolOf(st, i));
    R.Replay(r, PoolOf(st, i)).records
  }

  /** buildSnapshotOnRoutine as the source writes it: a pool that already
      has a snapshot is left alone; otherwise the replayed state is stored,
      seeded from nothing when the previous pool has no snapshot. `fail`
      says that one of its storage calls (opening the pool, reading its
      snapshot or logs, reading the previous snapshot, creating the
      reducer, exporting or storing the data) fails: the routine then logs
      and returns, storing nothing. */
  method BuildAsWritten(st: Store, i: nat, generators: Option<map<string, PM.Generator>>, fail: bool) returns (t: Store)
    ensures t.pools == st.pools && t.marker == st.marker
    ensures fail || i in st.snapshots ==> t == st
    ensures !fail && i !in st.snapshots ==>
      t.snapshots.Keys == st.snapshots.Keys + {i} &&
      (forall j :: j in st.snapshots ==> t.snapshots[j] == st.snapshots[j]) &&
      RC.Init(Some(t.snapshots[i])) == BuildRecords(st, i, generators)
  {
    if fail || i in st.snapshots {
      return st;
    }
    var logs := GetRecordLogs(PoolOf(st, i), 0, 0);
    GetRecordLogsSuffix(PoolOf(st, i), 0);
    assert logs == PoolOf(st, i);
    var r := R.Replay(R.NewSnapshot(LastSnapshot(st, i), generators), logs);
    assert r.records == BuildRecords(st, i, generators);
    var d := ExportRecords(r);
    t := st.(snapshots := st.snapshots[i := d]);
  }

  /** GetSnapshotData, seen through what a seed recovers from it. */
  method ExportRecords(r: R.Reducer) returns (d: SnapshotData)
    requires RC.KeyedById(r.records)
    ensures RC.Init(Some(d)) == r.records
  {
    d := R.GetSnapshotData(r);
    SeedsBuilt(r, d, None);
  }

  lemma SeedsBuilt(r: R.Reducer, d: SnapshotData, generators: Option<map<string, PM.Generator>>)
    requires RC.KeyedById(r.records)
    requires forall id :: id in r.records ==> r.records[id] in d.records
    requires forall row :: row in d.records ==> row in r.records.Values
    ensures RC.Init(Some(d)) == r.records
  {
    R.SnapshotSeedsRecords(r, d, generators);
  }

  /** The builder with the missing-predecessor case closed: a pool whose
      predecessor has no snapshot is skipped rather than seeded from
      nothing. Everything else, storage failures included, is as in the
      source. */
  method Build(st: Store, i: nat, generators: Option<map<string, PM.Generator>>, fail: bool) returns (t: Store)
    ensures t.pools == st.pools && t.marker == st.marker
    ensures fail || i in st.snapshots || (i > 0 && i - 1 !in st.snapshots) ==> t == st
    ensures !fail && i !in st.snapshots && (i == 0 || i - 1 in st.snapshots) ==>
      t.snapshots.Keys == st.snapshots.Keys + {i} &&
      RC.Init(Some(t.snapshots[i])) == BuildRecords(st, i, generators)
    ensures forall j :: j in st.snapshots ==> j in t.snapshots && t.snapshots[j] == st.snapshots[j]
    ensures SnapInv(st) ==> SnapInv(t)
  {
    if fail || i in st.snapshots || (i > 0 && i - 1 !in st.snapshots) {
      return st;
    }
    t := BuildAsWritten(st, i, generators, fail);
    BuildKeepsSnapInv(st, i, generators, t);
  }

  /** Building on a present predecessor (or on nothing for pool 0) stores
      the history of the pool. */
  lemma BuildKeepsSnapInv(st: Store, i: nat, generators: Option<map<string, PM.Generator>>, t: Store)
    requires i !in st.snapshots && (i == 0 || i - 1 in st.snapshots)
    requires t.pools == st.pools
    requires t.snapshots.Keys == st.snapshots.Keys + {i}
    requires forall j :: j in st.snapshots ==> t.snapshots[j] == st.snapshots[j]
    requires RC.Init(Some(t.snapshots[i])) == BuildRecords(st, i, generators)
    ensures SnapInv(st) ==> SnapInv(t)
  {
    if SnapInv(st) {
      forall j: nat ensures History(t, j) == History(st, j) {
        FlatFrame(t, st, j + 1);
      }
      if i == 0 {
        assert Flat(st, 1) == PoolOf(st, 0);
      } else {
        HistoryStep(st, i);
      }
    }
  }

  // ---------------------------------------------------------------------
  // The source's builder breaks the meaning of a snapshot

  /** Two one-log pools (snapshot log count 1) and no snapshot yet, as after
      a restart emptied the request queue. */
  function TwoPools(): Store {
    Store(map[0 := [AddLog("a", [], "v1")], 1 := [AddLog("b", [], "v2")]], map[], None)
  }

  /** Building pool 1 as written stores a snapshot without row "a", which
      every log of pools 0..1 does contain. */
  lemma AsWrittenLosesHistory()
    ensures SnapInv(TwoPools())
    ensures "a" in History(TwoPools(), 1)
    ensures "a" !in BuildRecords(TwoPools(), 1, None)
  {
    TwoPoolsHistory();
    TwoPoolsBuild();
  }

  /** Pools 0..1 of TwoPools hold the logs of "a" and then "b". */
  lemma TwoPoolsHistory()
    ensures SnapInv(TwoPools())
    ensures "a" in History(TwoPools(), 1)
  {
    var st := TwoPools();
    var la, lb := AddLog("a", [], "v1"), AddLog("b", [], "v2");
    assert Flat(st, 1) == [la];
    assert Flat(st, 2) == [la, lb];
    TwoLogsReplay(la, lb);
  }

  /** Replaying the add of "a" and then of "b" keeps row "a". */
  lemma TwoLogsReplay(la: Log, lb: Log)
    requires la == AddLog("a", [], "v1") && lb == AddLog("b", [], "v2")
    ensures "a" in ReplayRecords(map[], [la, lb])
  {
    var c1 := RecordStep(map[], la);
    assert c1 == map["a" := R.Synced("a", [], "v1")];
    assert ReplayRecords(map[], [la]) == c1 by {
      assert [la][..0] == [];
    }
    var c2 := RecordStep(c1, lb);
    assert c2 == c1["b" := R.Synced("b", [], "v2")];
    assert [la, lb][..1] == [la];
    assert ReplayRecords(map[], [la, lb]) == c2;
  }

  /** Without a snapshot of pool 0, building pool 1 replays pool 1 alone. */
  lemma TwoPoolsBuild()
    ensures "a" !in BuildRecords(TwoPools(), 1, None)
  {
    var st := TwoPools();
    assert PoolOf(st, 1)[..0] == [];
    assert BuildRecords(st, 1, None) == RecordStep(map[], AddLog("b", [], "v2"));
  }

  // ---------------------------------------------------------------------
  // The builder routine and the syncer

  /** Snapshots exist only for pools the writer has moved past, and each
      one seeds its pool's history. */
  ghost predicate SnapshotsSound(s: Syncer) {
    SnapInv(s.store) && (forall j :: j in s.store.snapshots ==> j < SelectSlot(s).0)
  }

  /** snapShotBuildRoutine handling one request from the queue; `fail`
      says that a storage call of the build fails. */
  method BuilderStep(s: Syncer, generators: Option<map<string, PM.Generator>>, fail: bool) returns (t: Syncer)
    requires HandlesOk(s)
    ensures HandlesOk(t)
    ensures s.queue == [] ==> t == s
    ensures s.queue != [] ==> t.queue == s.queue[1..]
    ensures fail ==> t.store == s.store
    ensures t.store.pools == s.store.pools && t.store.marker == s.store.marker
    ensures t.cap == s.cap && t.cur == s.cur && t.next == s.next && t.open == s.open
    ensures SnapshotsSound(s) ==> SnapshotsSound(t)
  {
    if s.queue == [] {
      return s;
    }
    var st := Build(s.store, s.queue[0], generators, fail);
    t := s.(queue := s.queue[1..], store := st);
    assert SelectSlot(t) == SelectSlot(s);
  }

  /** Draining the whole queue; the build of the k-th request taken meets a
      storage failure exactly when k is in `fails`. */
  method RunBuilder(s: Syncer, generators: Option<map<string, PM.Generator>>, fails: set<nat>) returns (t: Syncer)
    requires HandlesOk(s)
    ensures HandlesOk(t) && t.queue == []
    ensures t.store.pools == s.store.pools
    ensures SelectSlot(t) == SelectSlot(s)
    ensures SnapshotsSound(s) ==> SnapshotsSound(t)
  {
    t := s;
    var k: nat := 0;
    while t.queue != []
      invariant HandlesOk(t)
      invariant t.store.pools == s.store.pools && t.cap == s.cap && t.cur == s.cur && t.next == s.next
      invariant SnapshotsSound(s) ==> SnapshotsSound(t)
      decreases |t.queue|
    {
      t := BuilderStep(t, generators, k in fails);
      k := k + 1;
    }
  }

  /** An append only writes at or after the pool it selects, and that pool
      never moves backwards. */
  lemma AppendFreezesClosedPools(s: Syncer, entry: Result<Log>, f: Faults)
    ensures var t := Append(s, entry, f).state;
            SelectSlot(s).0 <= SelectSlot(t).0 &&
            (forall q: nat :: q < SelectSlot(s).0 ==> PoolOf(t.store, q) == PoolOf(s.store, q)) &&
            t.store.snapshots == s.store.snapshots
  {
    var rec := Recover(s, f, StampAware);
    assert SelectSlot(s).0 <= SelectSlot(rec.state).0;
    if rec.err.None? {
      var t := Write(rec.state, entry, f).state;
      assert SelectSlot(rec.state).0 <= SelectSlot(t).0;
    }
  }

  /** Appends keep every snapshot sound: its pools are closed. */
  lemma AppendKeepsSnapshotsSound(s: Syncer, entry: Result<Log>, f: Faults)
    requires SnapshotsSound(s)
    ensures SnapshotsSound(Append(s, entry, f).state)
  {
    var t := Append(s, entry, f).state;
    AppendFreezesClosedPools(s, entry, f);
    FrozenSound(s, t);
  }

  /** A syncer whose selected pool has not moved back, whose earlier pools
      are untouched and whose snapshots are the same keeps them sound. */
  lemma FrozenSound(s: Syncer, t: Syncer)
    requires SnapshotsSound(s)
    requires SelectSlot(s).0 <= SelectSlot(t).0
    requires forall q: nat :: q < SelectSlot(s).0 ==> PoolOf(t.store, q) == PoolOf(s.store, q)
    requires t.store.snapshots == s.store.snapshots
    ensures SnapshotsSound(t)
  {
    forall j | j in t.store.snapshots
      ensures RC.Init(Some(t.store.snapshots[j])) == History(t.store, j)
    {
      FlatFrame(t.store, s.store, j + 1);
    }
  }
}
