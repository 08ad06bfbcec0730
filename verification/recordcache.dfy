/** The snapshot record cache: record rows keyed by ID, seeded from the
    previous snapshot and exported sorted by timestamp. */
module RecordCache {
  import opened Wrappers
  import opened SyncModel
  import opened MapEnum

  type Cache = map<string, RecordRow>

  /** Every row is filed under its own ID. */
  predicate KeyedById(c: Cache) {
    forall id :: id in c ==> c[id].id == id
  }

  /** `r` is the last row of `rows` carrying `id`. */
  predicate LastWithId(rows: seq<RecordRow>, id: string, r: RecordRow) {
    exists i :: 0 <= i < |rows| && rows[i] == r && r.id == id &&
      forall j :: i < j < |rows| ==> rows[j].id != id
  }

  /** init's loop: file every row under its ID, a later duplicate replacing
      an earlier one. */
  function SeedRows(rows: seq<RecordRow>): (c: Cache)
    ensures KeyedById(c)
    ensures forall i :: 0 <= i < |rows| ==> rows[i].id in c
    decreases |rows|
  {
    if |rows| == 0 then map[]
    else
      var r := rows[|rows| - 1];
      assert forall i :: 0 <= i < |rows| - 1 ==> rows[..|rows| - 1][i] == rows[i];
      SeedRows(rows[..|rows| - 1])[r.id := r]
  }

  /** Each seeded row is the last row of the snapshot with that ID. */
  lemma {:induction false} SeedRowsLastWins(rows: seq<RecordRow>, id: string)
    requires id in SeedRows(rows)
    ensures LastWithId(rows, id, SeedRows(rows)[id])
    decreases |rows|
  {
    var p := rows[..|rows| - 1];
    var r := rows[|rows| - 1];
    if r.id == id {
      assert rows[|rows| - 1] == SeedRows(rows)[id];
    } else {
      SeedRowsLastWins(p, id);
      var i :| 0 <= i < |p| && p[i] == SeedRows(p)[id] && SeedRows(p)[id].id == id &&
        forall j :: i < j < |p| ==> p[j].id != id;
      assert rows[i] == p[i];
      forall j | i < j < |rows| ensures rows[j].id != id {
        if j < |p| { assert rows[j] == p[j]; }
      }
    }
  }

  /** NewSnapshotRecordCache: empty without a previous snapshot. */
  function Init(last: Option<SnapshotData>): (c: Cache)
    ensures KeyedById(c)
    ensures last.None? ==> c == map[]
    ensures last.Some? ==> c == SeedRows(last.value.records)
  {
    if last.None? then map[] else SeedRows(last.value.records)
  }

  function RowAt(r: RecordRow): int { r.at }

  /** GetSnapshotData: every stored row once, ordered by timestamp. */
  method GetSnapshotData(c: Cache) returns (rows: seq<RecordRow>)
    ensures |rows| == |c|
    ensures forall id :: id in c ==> c[id] in rows
    ensures forall r :: r in rows ==> r in c.Values
    ensures SortedBy(rows, RowAt)
  {
    rows := SortedValues(c, RowAt);
  }

  /** Seeding a cache from its own export rebuilds the cache exactly. */
  lemma SeedExportRoundTrip(c: Cache, rows: seq<RecordRow>)
    requires KeyedById(c)
    requires forall id :: id in c ==> c[id] in rows
    requires forall r :: r in rows ==> r in c.Values
    ensures SeedRows(rows) == c
  {
    var s := SeedRows(rows);
    forall id | id in c ensures id in s {
      var i :| 0 <= i < |rows| && rows[i] == c[id];
    }
    forall id | id in s ensures id in c && s[id] == c[id] {
      SeedRowsLastWins(rows, id);
      var i :| 0 <= i < |rows| && rows[i] == s[id] && s[id].id == id &&
        forall j :: i < j < |rows| ==> rows[j].id != id;
      assert rows[i] in rows;
      var k :| k in c && c[k] == rows[i];
    }
    assert s.Keys == c.Keys;
  }
}
