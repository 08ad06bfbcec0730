/** The snapshot reducer (snapshotImpl): replays one pool's logs over the
    state seeded from the previous snapshot. Record rows follow a version
    chain: a Change or Del must quote the version the last applied log
    produced; plugin logs go to the plugin cache registered for their ID. */
module Reducer {
  import opened Wrappers
  import opened SyncModel
  import opened MapEnum
  import RC = RecordCache
  import TT = TypeTableCache
  import PM = PluginManager

  datatype Reducer = Reducer(records: RC.Cache, manager: Option<PM.Manager>)

  /** The state after one log and the error it was rejected with, if any;
      a rejected log can still leave a freshly created plugin cache behind. */
  datatype Outcome = Outcome(state: Reducer, err: Option<Code>)

  /** NewSnapshot as the stores wire it: a record cache and a plugin
      manager for the given registry, both seeded from `last`. */
  function NewSnapshot(last: Option<SnapshotData>, generators: Option<map<string, PM.Generator>>): (r: Reducer)
    ensures RC.KeyedById(r.records)
    ensures r.records == RC.Init(last) && r.manager == PM.New(generators, last)
  {
    Reducer(RC.Init(last), PM.New(generators, last))
  }

  /** The row a successful Add or Change stores. */
  function Synced(id: string, data: Bytes, newVersion: string): RecordRow {
    RecordRow(id, newVersion, SyncDone, false, data, 0)
  }

  /** ApplyAddRecordLog: refused only when a synced row already has this ID. */
  function ApplyAdd(c: RC.Cache, id: string, data: Bytes, newVersion: string): (r: Result<RC.Cache>)
    ensures r.Err? <==> id in c && c[id].flag == SyncDone
    ensures r.Err? ==> r.code == Exists
    ensures r.Ok? ==> r.value == c[id := Synced(id, data, newVersion)]
  {
    if id in c && c[id].flag == SyncDone then Err(Exists)
    else Ok(c[id := Synced(id, data, newVersion)])
  }

  /** The precondition Change and Del share: the row exists and, once synced,
      carries the quoted version. */
  function CheckVersion(c: RC.Cache, id: string, version: string): (r: Option<Code>)
    ensures r == None <==> id in c && (c[id].flag != SyncDone || c[id].version == version)
    ensures r == Some(NotExists) <==> id !in c
    ensures r.Some? ==> r.value in {NotExists, Conflict}
  {
    if id !in c then Some(NotExists)
    else if c[id].flag == SyncDone && c[id].version != version then Some(Conflict)
    else None
  }

  /** ApplyChangeRecordLog. */
  function ApplyChange(c: RC.Cache, id: string, version: string, data: Bytes, newVersion: string): (r: Result<RC.Cache>)
    ensures r.Err? <==> CheckVersion(c, id, version).Some?
    ensures r.Err? ==> r.code == CheckVersion(c, id, version).value
    ensures r.Ok? ==> r.value == c[id := Synced(id, data, newVersion)]
  {
    match CheckVersion(c, id, version)
    case Some(e) => Err(e)
    case None => Ok(c[id := Synced(id, data, newVersion)])
  }

  /** ApplyDelRecordLog. */
  function ApplyDel(c: RC.Cache, id: string, version: string): (r: Result<RC.Cache>)
    ensures r.Err? <==> CheckVersion(c, id, version).Some?
    ensures r.Err? ==> r.code == CheckVersion(c, id, version).value
    ensures r.Ok? ==> id in c && r.value == c - {id}
  {
    match CheckVersion(c, id, version)
    case Some(e) => Err(e)
    case None => Ok(c - {id})
  }

  /** Once a row is added with version `v`, exactly the logs quoting `v`
      may change or delete it. */
  lemma VersionChain(c: RC.Cache, id: string, data: Bytes, v: string, quoted: string, data2: Bytes, v2: string)
    requires ApplyAdd(c, id, data, v).Ok?
    ensures var c1 := ApplyAdd(c, id, data, v).value;
            (ApplyChange(c1, id, quoted, data2, v2).Ok? <==> quoted == v) &&
            (ApplyDel(c1, id, quoted).Ok? <==> quoted == v) &&
            ApplyAdd(c1, id, data2, v2) == Err(Exists)
  {}

  /** Every row is synced: what the reducer stores and what it seeds from
      its own snapshots. */
  predicate AllSynced(c: RC.Cache) {
    forall id :: id in c ==> c[id].flag == SyncDone
  }

  /** Record operations keep every row synced and filed under its ID. */
  lemma RecordOpsKeepInvariant(c: RC.Cache, id: string, version: string, data: Bytes, newVersion: string)
    requires AllSynced(c) && RC.KeyedById(c)
    ensures ApplyAdd(c, id, data, newVersion).Ok? ==>
      AllSynced(ApplyAdd(c, id, data, newVersion).value) && RC.KeyedById(ApplyAdd(c, id, data, newVersion).value)
    ensures ApplyChange(c, id, version, data, newVersion).Ok? ==>
      AllSynced(ApplyChange(c, id, version, data, newVersion).value) &&
      RC.KeyedById(ApplyChange(c, id, version, data, newVersion).value)
    ensures ApplyDel(c, id, version).Ok? ==>
      AllSynced(ApplyDel(c, id, version).value) && RC.KeyedById(ApplyDel(c, id, version).value)
  {}

  /** ApplyPluginLog. */
  function ApplyPluginLog(r: Reducer, log: Log): (o: Outcome)
    ensures o.state.records == r.records
    ensures r.manager.None? ==> o == Outcome(r, Some(NotExists))
    ensures r.manager.Some? ==> (o.state.manager.Some? &&
      o.state.manager.value.generators == r.manager.value.generators)
    ensures r.manager.Some? && PM.GetCache(r.manager.value, log.pluginId).1.None? ==>
      o.err == Some(NotExists)
    ensures r.manager.Some? && PM.GetCache(r.manager.value, log.pluginId).1.Some? ==>
      var got := PM.GetCache(r.manager.value, log.pluginId);
      var applied := TT.ApplyLog(got.1.value, log);
      (applied.Err? ==> o == Outcome(r.(manager := Some(got.0)), Some(applied.code))) &&
      (applied.Ok? ==> o == Outcome(r.(manager := Some(got.0.(plugins := got.0.plugins[log.pluginId := applied.value]))), None))
  {
    if r.manager.None? then Outcome(r, Some(NotExists))
    else
      var got := PM.GetCache(r.manager.value, log.pluginId);
      var m := got.0;
      if got.1.None? then Outcome(r.(manager := Some(m)), Some(NotExists))
      else
        match TT.ApplyLog(got.1.value, log)
        case Err(e) => Outcome(r.(manager := Some(m)), Some(e))
        case Ok(c) => Outcome(r.(manager := Some(m.(plugins := m.plugins[log.pluginId := c]))), None)
  }

  /** One step of the replay loop of buildSnapshotOnRoutine: record logs by
      op type (anything else is a logic error), plugin logs to the plugin. */
  function Route(r: Reducer, log: Log): (o: Outcome)
    ensures log.pluginId != "" ==> o == ApplyPluginLog(r, log)
    ensures log.pluginId == "" ==> o.state.manager == r.manager
    ensures log.pluginId == "" && !(log.op.Add? || log.op.Del? || log.op.Change?) ==>
      o == Outcome(r, Some(Logic))
    ensures o.err.Some? && log.pluginId == "" ==> o.state == r
  {
    if log.pluginId != "" then ApplyPluginLog(r, log)
    else
      var res := match log.op
        case Add => ApplyAdd(r.records, log.recordId, log.ds, log.newVersionId)
        case Del => ApplyDel(r.records, log.recordId, log.versionId)
        case Change => ApplyChange(r.records, log.recordId, log.versionId, log.ds, log.newVersionId)
        case _ => Err(Logic);
      match res
      case Ok(c) => Outcome(r.(records := c), None)
      case Err(e) => Outcome(r, Some(e))
  }

  /** The replay loop: every log in order, rejected ones skipped. */
  function Replay(r: Reducer, logs: seq<Log>): (o: Reducer)
    ensures (forall i :: 0 <= i < |logs| ==> logs[i].pluginId != "") ==> o.records == r.records
    ensures (forall i :: 0 <= i < |logs| ==> logs[i].pluginId == "") ==> o.manager == r.manager
    ensures o.manager.Some? <==> r.manager.Some?
    ensures r.manager.Some? ==> o.manager.value.generators == r.manager.value.generators
    decreases |logs|
  {
    if |logs| == 0 then r else Route(Replay(r, logs[..|logs| - 1]), logs[|logs| - 1]).state
  }

  /** Replaying two batches one after the other is replaying their
      concatenation: the reducer state is all a replay carries over. */
  lemma {:induction false} ReplayConcat(r: Reducer, a: seq<Log>, b: seq<Log>)
    ensures Replay(r, a + b) == Replay(Replay(r, a), b)
    decreases |b|
  {
    if |b| == 0 {
      assert a + b == a;
    } else {
      assert (a + b)[..|a + b| - 1] == a + b[..|b| - 1];
      ReplayConcat(r, a, b[..|b| - 1]);
    }
  }

  /** Replay keeps every record row synced and filed under its ID. */
  lemma {:induction false} ReplayKeepsInvariant(r: Reducer, logs: seq<Log>)
    requires AllSynced(r.records) && RC.KeyedById(r.records)
    ensures AllSynced(Replay(r, logs).records) && RC.KeyedById(Replay(r, logs).records)
    decreases |logs|
  {
    if |logs| > 0 {
      var p := Replay(r, logs[..|logs| - 1]);
      ReplayKeepsInvariant(r, logs[..|logs| - 1]);
      var l := logs[|logs| - 1];
      RecordOpsKeepInvariant(p.records, l.recordId, l.versionId, l.ds, l.newVersionId);
    }
  }

  /** `caches` lists every cached plugin once. */
  predicate Listing(plugins: map<string, TT.Cache>, caches: seq<TT.Cache>) {
    |caches| == |plugins| &&
    (forall id :: id in plugins ==> plugins[id] in caches) &&
    (forall c :: c in caches ==> c in plugins.Values)
  }

  /** `p` is the record of plugin cache `c`: under the type-table plugin's
      ID, listing exactly the cache's rows. */
  predicate Exported(c: TT.Cache, p: PluginSnapshot) {
    p.id == TT.PluginId && p.records.Some? && TT.Lists(c, p.records.value)
  }

  /** `ps` exports the cached plugins: one record per plugin, in the order
      of some listing of them. */
  ghost predicate Exports(plugins: map<string, TT.Cache>, ps: seq<PluginSnapshot>) {
    exists caches :: Listing(plugins, caches) && |ps| == |caches| &&
      forall j :: 0 <= j < |ps| ==> Exported(caches[j], ps[j])
  }

  /** getPluginSnapshotDatas: one record per cached plugin, each holding
      that plugin's rows. */
  method PluginSnapshots(r: Reducer) returns (ps: seq<PluginSnapshot>)
    ensures r.manager.None? ==> ps == []
    ensures r.manager.Some? ==> Exports(r.manager.value.plugins, ps)
  {
    ps := [];
    if r.manager.None? { return; }
    var caches := PM.GetCaches4Save(r.manager.value);
    var i := 0;
    while i < |caches|
      invariant 0 <= i <= |caches| && |ps| == i
      invariant forall j :: 0 <= j < i ==> Exported(caches[j], ps[j])
    {
      var d := TT.GetSnapshotData(caches[i]);
      ps := ps + [PluginSnapshot(TT.PluginId, Some(d))];
      i := i + 1;
    }
    assert Listing(r.manager.value.plugins, caches);
  }

  /** GetSnapshotData: the record rows (sorted by timestamp) and the plugin
      records. */
  method GetSnapshotData(r: Reducer) returns (d: SnapshotData)
    ensures |d.records| == |r.records|
    ensures forall id :: id in r.records ==> r.records[id] in d.records
    ensures forall row :: row in d.records ==> row in r.records.Values
    ensures SortedBy(d.records, RC.RowAt)
    ensures r.manager.None? ==> d.plugins == []
    ensures r.manager.Some? ==> Exports(r.manager.value.plugins, d.plugins)
  {
    var rows := RC.GetSnapshotData(r.records);
    var ps := PluginSnapshots(r);
    d := SnapshotData(rows, ps);
  }

  /** With the type-table plugin the only one cached, as in the source's
      registries, a snapshot seeds plugin caches that answer every lookup
      with the cache that was snapshotted: one seeded up front when it
      holds rows, an empty one made on demand when it held none. */
  lemma SnapshotSeedsPlugins(r: Reducer, d: SnapshotData)
    requires r.manager.Some? && r.manager.value.plugins.Keys <= {TT.PluginId}
    requires forall id :: id in r.manager.value.plugins ==>
      TT.Keyed(r.manager.value.plugins[id]) && TT.Projected(r.manager.value.plugins[id]) &&
      id in r.manager.value.generators &&
      r.manager.value.generators[id] == PM.Gen(r.manager.value.plugins[id].kind)
    requires Exports(r.manager.value.plugins, d.plugins)
    ensures var m := NewSnapshot(Some(d), Some(r.manager.value.generators)).manager;
      m.Some? && forall id :: id in r.manager.value.plugins ==>
        PM.GetCache(m.value, id).1 == Some(r.manager.value.plugins[id])
  {
    var plugins := r.manager.value.plugins;
    var gens := r.manager.value.generators;
    var m := PM.New(Some(gens), Some(d));
    assert NewSnapshot(Some(d), Some(gens)).manager == m;
    if TT.PluginId in plugins {
      var c := plugins[TT.PluginId];
      var dd := OnePluginExport(plugins, d.plugins);
      TT.SeedExportRoundTrip(c, dd);
      var seeded := TT.New(c.kind, Some(d));
      assert seeded == TT.New(c.kind, Some(SnapshotData([], [PluginSnapshot(TT.PluginId, Some(dd))])));
      assert seeded.0 == c;
      SeededLookup(gens, d, TT.PluginId, c);
    }
  }

  /** The lookup in a freshly seeded manager finds the seeded cache, or an
      empty one when seeding gave no rows. */
  lemma SeededLookup(gens: map<string, PM.Generator>, d: SnapshotData, id: string, c: TT.Cache)
    requires id in gens && gens[id] == PM.Gen(c.kind)
    requires TT.New(c.kind, Some(d)).0 == c
    ensures PM.New(Some(gens), Some(d)).Some?
    ensures PM.GetCache(PM.New(Some(gens), Some(d)).value, id).1 == Some(c)
  {
    var m := PM.New(Some(gens), Some(d)).value;
    if !TT.New(c.kind, Some(d)).1 {
      assert id !in m.plugins;
      assert c.income == map[] && c.expenses == map[];
    }
  }

  /** With only the type-table plugin cached, the export is one record
      listing its rows. */
  lemma OnePluginExport(plugins: map<string, TT.Cache>, ps: seq<PluginSnapshot>) returns (dd: TypeTableData)
    requires TT.PluginId in plugins && plugins.Keys <= {TT.PluginId}
    requires Exports(plugins, ps)
    ensures ps == [PluginSnapshot(TT.PluginId, Some(dd))] && TT.Lists(plugins[TT.PluginId], dd)
  {
    var caches :| Listing(plugins, caches) && |ps| == |caches| &&
      forall j :: 0 <= j < |ps| ==> Exported(caches[j], ps[j]);
    OnlyPlugin(plugins);
    assert |ps| == 1;
    var c0 := caches[0];
    assert c0 in plugins.Values by {
      assert c0 in caches;
    }
    assert Exported(c0, ps[0]);
    dd := ps[0].records.value;
    assert ps[0] == PluginSnapshot(TT.PluginId, Some(dd));
  }

  /** A map keyed by the type-table plugin's ID alone holds one cache. */
  lemma OnlyPlugin(plugins: map<string, TT.Cache>)
    requires TT.PluginId in plugins && plugins.Keys <= {TT.PluginId}
    ensures |plugins| == 1
    ensures forall c :: c in plugins.Values ==> c == plugins[TT.PluginId]
  {
    assert plugins.Keys == {TT.PluginId};
    assert |plugins| == |plugins.Keys| == 1;
  }

  /** A snapshot's record rows seed exactly the record cache they were
      taken from. */
  lemma SnapshotSeedsRecords(r: Reducer, d: SnapshotData, generators: Option<map<string, PM.Generator>>)
    requires RC.KeyedById(r.records)
    requires forall id :: id in r.records ==> r.records[id] in d.records
    requires forall row :: row in d.records ==> row in r.records.Values
    ensures NewSnapshot(Some(d), generators).records == r.records
  {
    RC.SeedExportRoundTrip(r.records, d.records);
  }
}
