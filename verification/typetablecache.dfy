/** The type-table snapshot plugin, in its two variants: the bookkeeping
    one (rows carry only ID and payload; a Del removes the row) and the demo
    one (rows carry label, parent and timestamp; a Del records where the
    type was transferred to and keeps the row). Both keep an income map
    and an expenses map keyed by type ID. */
module TypeTableCache {
  import opened Wrappers
  import opened SyncModel
  import opened MapEnum

  const PluginId: string := "sync-table-type"
  const IncomeType: int := 0
  const ExpensesType: int := 1

  datatype Kind = Bookkeeping | Demo

  type Table = map<string, TypeRow>

  datatype Cache = Cache(kind: Kind, income: Table, expenses: Table)

  predicate KeyedById(t: Table) {
    forall id :: id in t ==> t[id].id == id
  }

  predicate Keyed(c: Cache) {
    KeyedById(c.income) && KeyedById(c.expenses)
  }

  /** What the variant's JSON row type keeps of a decoded row. */
  function Project(kind: Kind, r: TypeRow): (p: TypeRow)
    ensures p.id == r.id && p.data == r.data
    ensures kind == Demo ==> p == r
    ensures kind == Bookkeeping ==> p.labelText == "" && p.parentId == "" && p.toId == "" && p.at == 0
  {
    if kind == Demo then r else TypeRow(r.id, "", r.data, "", "", 0)
  }

  /** File rows under their IDs, later duplicates replacing earlier ones. */
  function FileRows(kind: Kind, t: Table, rows: seq<TypeRow>): (r: Table)
    ensures KeyedById(t) ==> KeyedById(r)
    ensures forall id :: id in r <==> id in t || exists i :: 0 <= i < |rows| && rows[i].id == id
    decreases |rows|
  {
    if |rows| == 0 then t
    else
      var last := rows[|rows| - 1];
      var p := rows[..|rows| - 1];
      assert forall i :: 0 <= i < |p| ==> p[i] == rows[i];
      FileRows(kind, t, p)[last.id := Project(kind, last)]
  }

  /** init's loop over the previous snapshot's plugin records: records of
      other plugins are skipped, and the first record that does not decode
      ends the loop. */
  function SeedFrom(kind: Kind, records: seq<PluginSnapshot>, c: Cache): (r: Cache)
    ensures r.kind == c.kind
    ensures Keyed(c) ==> Keyed(r)
    decreases |records|
  {
    if |records| == 0 then c
    else if records[0].id != PluginId then SeedFrom(kind, records[1..], c)
    else if records[0].records.None? then c
    else
      var d := records[0].records.value;
      SeedFrom(kind, records[1..],
               c.(income := FileRows(kind, c.income, d.income),
                  expenses := FileRows(kind, c.expenses, d.expenses)))
  }

  /** NewSyncTypeTableSnapshotCache: the cache and whether it holds any row. */
  function New(kind: Kind, last: Option<SnapshotData>): (r: (Cache, bool))
    ensures r.0.kind == kind && Keyed(r.0)
    ensures r.1 <==> |r.0.income| > 0 || |r.0.expenses| > 0
    ensures last.None? ==> r.0.income == map[] && r.0.expenses == map[]
  {
    var empty := Cache(kind, map[], map[]);
    if last.None? then (empty, false)
    else
      var c := SeedFrom(kind, last.value.plugins, empty);
      (c, |c.income| > 0 || |c.expenses| > 0)
  }

  /** getMapForMetaDataType followed by the write-back of that map. */
  function TableOf(c: Cache, metaType: int): Table
    requires metaType == IncomeType || metaType == ExpensesType
  {
    if metaType == IncomeType then c.income else c.expenses
  }

  function WithTable(c: Cache, metaType: int, t: Table): (r: Cache)
    requires metaType == IncomeType || metaType == ExpensesType
    ensures r.kind == c.kind && TableOf(r, metaType) == t
    ensures metaType == IncomeType ==> r.expenses == c.expenses
    ensures metaType == ExpensesType ==> r.income == c.income
  {
    if metaType == IncomeType then c.(income := t) else c.(expenses := t)
  }

  /** ApplyLog. */
  function ApplyLog(c: Cache, log: Log): (r: Result<Cache>)
    ensures log.pluginId != PluginId ==> r == Err(NotExists)
    ensures log.pluginId == PluginId && log.meta.None? ==> r == Err(Logic)
    ensures log.pluginId == PluginId && log.meta.Some? &&
            log.meta.value.metaType != IncomeType && log.meta.value.metaType != ExpensesType
            ==> r == Err(NotExists)
    ensures r.Err? ==> r.code in {NotExists, Logic, Unknown}
    ensures r.Ok? ==> r.value.kind == c.kind
    // Only the table the payload names is touched.
    ensures r.Ok? ==> (log.meta.Some? &&
      (log.meta.value.metaType == IncomeType ==> r.value.expenses == c.expenses) &&
      (log.meta.value.metaType == ExpensesType ==> r.value.income == c.income))
  {
    if log.pluginId != PluginId then Err(NotExists)
    else if log.meta.None? then Err(Logic)
    else
      var meta := log.meta.value;
      if meta.metaType != IncomeType && meta.metaType != ExpensesType then Err(NotExists)
      else
        var t := TableOf(c, meta.metaType);
        match log.op
        case Add => Ok(WithTable(c, meta.metaType, t[log.recordId := UpsertRow(c.kind, log)]))
        case Change => Ok(WithTable(c, meta.metaType, t[log.recordId := UpsertRow(c.kind, log)]))
        case Del =>
          if c.kind == Bookkeeping then Ok(WithTable(c, meta.metaType, t - {log.recordId}))
          else if log.recordId !in t then Err(NotExists)
          else Ok(WithTable(c, meta.metaType, t[log.recordId := t[log.recordId].(toId := meta.toRecordId)]))
        case _ => Err(Unknown)
  }

  /** The row an Add or Change writes. */
  function UpsertRow(kind: Kind, log: Log): (r: TypeRow)
    requires log.meta.Some?
    ensures r.id == log.recordId && r.data == log.ds && r.toId == ""
  {
    var meta := log.meta.value;
    if kind == Bookkeeping then TypeRow(log.recordId, "", log.ds, "", "", 0)
    else TypeRow(log.recordId, meta.labelText, log.ds, meta.parentId, "", meta.at)
  }

  /** An applied log keeps both tables keyed by ID. */
  lemma ApplyLogKeepsKeyed(c: Cache, log: Log)
    requires Keyed(c) && ApplyLog(c, log).Ok?
    ensures Keyed(ApplyLog(c, log).value)
  {}

  /** Add/Change leave the row under its record ID, whatever was there; a
      bookkeeping Del removes it and a demo Del only redirects it. */
  lemma ApplyLogEffect(c: Cache, log: Log)
    requires ApplyLog(c, log).Ok?
    ensures var t := TableOf(ApplyLog(c, log).value, log.meta.value.metaType);
            var t0 := TableOf(c, log.meta.value.metaType);
            (log.op.Add? || log.op.Change? ==> t == t0[log.recordId := UpsertRow(c.kind, log)]) &&
            (log.op.Del? && c.kind == Bookkeeping ==> log.recordId !in t && t == t0 - {log.recordId}) &&
            (log.op.Del? && c.kind == Demo ==> (log.recordId in t0 &&
               t == t0[log.recordId := t0[log.recordId].(toId := log.meta.value.toRecordId)]))
  {}

  function RowAt(r: TypeRow): int { r.at }

  /** GetSnapshotData: both tables' rows; the demo variant sorts each list
      by timestamp. */
  method GetSnapshotData(c: Cache) returns (d: TypeTableData)
    ensures |d.income| == |c.income| && |d.expenses| == |c.expenses|
    ensures Lists(c, d)
    ensures c.kind == Demo ==> SortedBy(d.income, RowAt) && SortedBy(d.expenses, RowAt)
  {
    var inc, exp;
    if c.kind == Demo {
      inc := SortedValues(c.income, RowAt);
      exp := SortedValues(c.expenses, RowAt);
    } else {
      inc := Values(c.income);
      exp := Values(c.expenses);
    }
    d := TypeTableData(inc, exp);
  }

  /** `d` lists exactly the rows of both of the cache's tables. */
  predicate Lists(c: Cache, d: TypeTableData) {
    (forall id :: id in c.income ==> c.income[id] in d.income) &&
    (forall r :: r in d.income ==> r in c.income.Values) &&
    (forall id :: id in c.expenses ==> c.expenses[id] in d.expenses) &&
    (forall r :: r in d.expenses ==> r in c.expenses.Values)
  }

  /** Rows already in the variant's shape: re-filing them changes nothing. */
  predicate Projected(c: Cache) {
    (forall id :: id in c.income ==> Project(c.kind, c.income[id]) == c.income[id]) &&
    (forall id :: id in c.expenses ==> Project(c.kind, c.expenses[id]) == c.expenses[id])
  }

  /** Seeding a fresh cache from an exported plugin record rebuilds the
      cache that was exported. */
  lemma SeedExportRoundTrip(c: Cache, d: TypeTableData)
    requires Keyed(c) && Projected(c) && Lists(c, d)
    ensures New(c.kind, Some(SnapshotData([], [PluginSnapshot(PluginId, Some(d))]))).0 == c
  {
    var records := [PluginSnapshot(PluginId, Some(d))];
    var empty := Cache(c.kind, map[], map[]);
    assert records[1..] == [];
    FileRowsRebuild(c.kind, c.income, d.income);
    FileRowsRebuild(c.kind, c.expenses, d.expenses);
    var filled := empty.(income := FileRows(c.kind, map[], d.income),
                         expenses := FileRows(c.kind, map[], d.expenses));
    assert SeedFrom(c.kind, records, empty) == SeedFrom(c.kind, [], filled);
    assert filled == c;
  }

  /** Filing a listing of a keyed, projected table into an empty table
      gives the table back. */
  lemma FileRowsRebuild(kind: Kind, t: Table, rows: seq<TypeRow>)
    requires KeyedById(t)
    requires forall id :: id in t ==> Project(kind, t[id]) == t[id]
    requires forall id :: id in t ==> t[id] in rows
    requires forall r :: r in rows ==> r in t.Values
    ensures FileRows(kind, map[], rows) == t
  {
    var f := FileRows(kind, map[], rows);
    FileRowsFromRows(kind, rows);
    forall id | id in t ensures id in f {
      var i :| 0 <= i < |rows| && rows[i] == t[id];
    }
    forall id | id in f ensures id in t && f[id] == t[id] {
      var i :| 0 <= i < |rows| && rows[i].id == id && f[id] == Project(kind, rows[i]);
      assert rows[i] in rows;
      var k :| k in t && t[k] == rows[i];
    }
    assert f.Keys == t.Keys;
  }

  /** Every filed row is the projection of some listed row with its ID. */
  lemma {:induction false} FileRowsFromRows(kind: Kind, rows: seq<TypeRow>)
    ensures forall id :: id in FileRows(kind, map[], rows) ==>
      exists i :: (0 <= i < |rows| && rows[i].id == id &&
        FileRows(kind, map[], rows)[id] == Project(kind, rows[i]))
    decreases |rows|
  {
    if |rows| > 0 {
      var p := rows[..|rows| - 1];
      FileRowsFromRows(kind, p);
      forall id | id in FileRows(kind, map[], rows)
        ensures exists i :: (0 <= i < |rows| && rows[i].id == id &&
          FileRows(kind, map[], rows)[id] == Project(kind, rows[i]))
      {
        if id != rows[|rows| - 1].id {
          var i :| 0 <= i < |p| && p[i].id == id && FileRows(kind, map[], p)[id] == Project(kind, p[i]);
          assert rows[i] == p[i];
        }
      }
    }
  }
}
