/** The snapshot plugin manager: plugin caches created on demand from a
    registry of generators, seeded from the previous snapshot when that
    snapshot holds data for them. */
module PluginManager {
  import opened Wrappers
  import opened SyncModel
  import opened MapEnum
  import TT = TypeTableCache

  /** A registered generator; `NilGen` is one that yields a nil plugin.
      A nil generator function is not a value here: init would call it and
      panic. */
  datatype Generator = Gen(kind: TT.Kind) | NilGen

  datatype Manager = Manager(plugins: map<string, TT.Cache>, generators: map<string, Generator>)

  /** NewSnapshotPluginStorageManager: no manager for a nil registry;
      otherwise a plugin is cached up front only when the previous snapshot
      gives it rows. */
  function New(generators: Option<map<string, Generator>>, last: Option<SnapshotData>): (r: Option<Manager>)
    ensures generators.None? <==> r.None?
    ensures r.Some? ==> r.value.generators == generators.value
    ensures r.Some? ==> forall id :: id in r.value.plugins <==>
      (id in generators.value && generators.value[id].Gen? && TT.New(generators.value[id].kind, last).1)
    ensures r.Some? && last.None? ==> r.value.plugins == map[]
  {
    if generators.None? then None
    else
      var g := generators.value;
      Some(Manager(map id | id in g && g[id].Gen? && TT.New(g[id].kind, last).1 :: TT.New(g[id].kind, last).0, g))
  }

  /** GetCache: the cached plugin, or a fresh empty one made by the
      registered generator (and cached), or none. */
  function GetCache(m: Manager, id: string): (r: (Manager, Option<TT.Cache>))
    ensures r.0.generators == m.generators
    ensures id in m.plugins ==> r == (m, Some(m.plugins[id]))
    ensures id !in m.plugins && (id !in m.generators || m.generators[id].NilGen?) ==> r == (m, None)
    ensures id !in m.plugins && id in m.generators && m.generators[id].Gen? ==>
      r.1.Some? && r.0.plugins == m.plugins[id := r.1.value] &&
      r.1.value == TT.Cache(m.generators[id].kind, map[], map[])
  {
    if id in m.plugins then (m, Some(m.plugins[id]))
    else if id !in m.generators || m.generators[id].NilGen? then (m, None)
    else
      var c := TT.New(m.generators[id].kind, None).0;
      (m.(plugins := m.plugins[id := c]), Some(c))
  }

  /** A plugin, once cached, is returned by every later lookup. */
  lemma GetCacheStable(m: Manager, id: string)
    requires GetCache(m, id).1.Some?
    ensures GetCache(GetCache(m, id).0, id) == (GetCache(m, id).0, GetCache(m, id).1)
  {}

  /** GetCaches4Save: every cached plugin once. */
  method GetCaches4Save(m: Manager) returns (caches: seq<TT.Cache>)
    ensures |caches| == |m.plugins|
    ensures forall id :: id in m.plugins ==> m.plugins[id] in caches
    ensures forall c :: c in caches ==> c in m.plugins.Values
  {
    caches := Values(m.plugins);
  }
}
