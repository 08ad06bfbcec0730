/** The reference client the sync tests drive: a local list of record rows
    with a per-row upload flag, local edits, an upload pass that turns
    pending edits into append requests, and a catch-up pass that folds the
    server's log stream into the rows and advances the cursor. */
module Client {
  import opened Wrappers
  import opened SyncModel
  import opened Numeral
  import SeqId
  import SyncRead
  import SB = SnapshotBuilder
  import R = Reducer

  /** A local row. The flag is the client's upload state: WaitSync (0) for a
      local change not yet sent, SyncToServer (1) for one sent and not yet
      echoed back, SyncDone (2) for a row that matches the server. `data`
      stands for the decoded record data. */
  datatype Row = Row(id: string, version: string, flag: UpdateFlag, deleted: bool, data: Bytes)

  /** The client: its cursor (the last sequence number it has seen, in
      wire form, "" before the first sync) and its rows in list order. */
  datatype Client = Client(cursor: string, rows: seq<Row>)

  /** A client-side operation's result and its boolean verdict. */
  datatype Edit = Edit(client: Client, ok: bool)

  const Fresh := Client("", [])

  /** The row a successful add or change echo writes. */
  function SyncedRow(id: string, data: Bytes, newVersion: string): Row {
    Row(id, newVersion, SyncDone, false, data)
  }

  /** The index the client's linear scans stop at: the first row with `id`. */
  function Find(rows: seq<Row>, id: string): (r: Option<nat>)
    ensures r.Some? ==> r.value < |rows| && rows[r.value].id == id
    ensures r.Some? ==> forall j :: 0 <= j < r.value ==> rows[j].id != id
    ensures r.None? <==> forall j :: 0 <= j < |rows| ==> rows[j].id != id
    decreases |rows|
  {
    if |rows| == 0 then None
    else if rows[0].id == id then Some(0)
    else match Find(rows[1..], id)
      case None => None
      case Some(k) => Some(k + 1)
  }

  /** slices.Delete(rows, i, i+1). */
  function Remove(rows: seq<Row>, i: nat): (r: seq<Row>)
    requires i < |rows|
    ensures |r| == |rows| - 1
  {
    rows[..i] + rows[i + 1..]
  }

  /** No two rows share an ID. */
  ghost predicate Distinct(rows: seq<Row>) {
    forall i, j :: 0 <= i < j < |rows| ==> rows[i].id != rows[j].id
  }

  // ---------------------------------------------------------------- local edits

  /** AddRecord: a new local row waiting for upload; `id` is the fresh
      identifier the client generates. */
  function AddRecord(c: Client, id: string, data: Bytes): (r: Client)
    ensures Find(c.rows, id).None? ==> Find(r.rows, id) == Some(|c.rows|)
    ensures |r.rows| == |c.rows| + 1 && r.rows[..|c.rows|] == c.rows && r.cursor == c.cursor
    ensures PendingUpload(r.rows[|c.rows|])
  {
    var rows := c.rows + [Row(id, "", WaitSync, false, data)];
    assert rows[..|c.rows|] == c.rows;
    assert Find(c.rows, id).None? ==> Find(rows, id) == Some(|c.rows|) by {
      if Find(c.rows, id).None? { FindIs(rows, id, |c.rows|); }
    }
    c.(rows := rows)
  }

  /** A local row the server has never seen, waiting for upload. */
  predicate PendingUpload(row: Row) {
    row.flag == WaitSync && row.version == "" && !row.deleted
  }

  /** DelRecord: refused for a missing, already deleted or in-flight row;
      a row the server never saw is dropped, an uploaded one becomes a
      tombstone waiting for upload. */
  function DelRecord(c: Client, id: string): (r: Edit)
    ensures r.ok <==> (Find(c.rows, id).Some? &&
                       !c.rows[Find(c.rows, id).value].deleted &&
                       c.rows[Find(c.rows, id).value].flag != SyncToServer)
    ensures !r.ok ==> r.client == c
    ensures r.ok && c.rows[Find(c.rows, id).value].version == "" ==>
      Find(r.client.rows, id).None? || !Distinct(c.rows)
    ensures r.ok && c.rows[Find(c.rows, id).value].version != "" ==>
      var i := Find(c.rows, id).value;
      r.client.rows == c.rows[i := c.rows[i].(deleted := true, flag := WaitSync)]
    ensures r.client.cursor == c.cursor
  {
    match Find(c.rows, id)
    case None => Edit(c, false)
    case Some(i) =>
      var row := c.rows[i];
      if row.deleted || row.flag == SyncToServer then Edit(c, false)
      else if row.version == "" then
        var rows := Remove(c.rows, i);
        assert Distinct(c.rows) ==> Find(rows, id).None? by {
          if Distinct(c.rows) {
            forall j | 0 <= j < |rows| ensures rows[j].id != id {
              if j < i { assert rows[j] == c.rows[j]; } else { assert rows[j] == c.rows[j + 1]; }
            }
          }
        }
        Edit(c.(rows := rows), true)
      else Edit(c.(rows := c.rows[i := row.(deleted := true, flag := WaitSync)]), true)
  }

  /** ModifyRecord: refused for a missing, deleted or in-flight row;
      otherwise the new data waits for upload. */
  function ModifyRecord(c: Client, id: string, data: Bytes): (r: Edit)
    ensures r.ok <==> (Find(c.rows, id).Some? &&
                       !c.rows[Find(c.rows, id).value].deleted &&
                       c.rows[Find(c.rows, id).value].flag != SyncToServer)
    ensures !r.ok ==> r.client == c
    ensures r.ok ==>
      var i := Find(c.rows, id).value;
      r.client.rows == c.rows[i := c.rows[i].(flag := WaitSync, data := data)]
    ensures r.client.cursor == c.cursor
  {
    match Find(c.rows, id)
    case None => Edit(c, false)
    case Some(i) =>
      var row := c.rows[i];
      if row.deleted || row.flag == SyncToServer then Edit(c, false)
      else Edit(c.(rows := c.rows[i := row.(flag := WaitSync, data := data)]), true)
  }

  // ---------------------------------------------------------------- upload

  /** What UploadChanges asks the server to append for one row. */
  datatype Request =
    | ReqDel(id: string, version: string)
    | ReqAdd(id: string, data: Bytes)
    | ReqChange(id: string, version: string, data: Bytes)

  function RequestOf(row: Row): Request {
    if row.deleted then ReqDel(row.id, row.version)
    else if row.version == "" then ReqAdd(row.id, row.data)
    else ReqChange(row.id, row.version, row.data)
  }

  /** The requests for the rows waiting for upload, in list order. */
  function Requests(rows: seq<Row>): seq<Request>
    decreases |rows|
  {
    if |rows| == 0 then []
    else
      var last := rows[|rows| - 1];
      Requests(rows[..|rows| - 1]) + (if last.flag == WaitSync then [RequestOf(last)] else [])
  }

  /** A row after the upload pass. */
  function Mark(row: Row): Row {
    if row.flag == WaitSync then row.(flag := SyncToServer) else row
  }

  /** UploadChanges: the client after the pass and the requests it sent. */
  function UploadChanges(c: Client): (r: (Client, seq<Request>))
    ensures r.0.cursor == c.cursor && |r.0.rows| == |c.rows|
    ensures forall i :: 0 <= i < |c.rows| ==> r.0.rows[i] == Mark(c.rows[i])
    ensures forall i :: 0 <= i < |r.0.rows| ==> r.0.rows[i].flag != WaitSync
    ensures r.1 == Requests(c.rows)
  {
    (c.(rows := seq(|c.rows|, i requires 0 <= i < |c.rows| => Mark(c.rows[i]))), Requests(c.rows))
  }

  /** The server-side entry each request turns into, with the version the
      server mints for it. */
  function Echo(q: Request, newVersion: string): (l: Log)
    ensures l.pluginId == "" && l.recordId == q.id
  {
    match q
    case ReqDel(id, v) => DelLog(id, v)
    case ReqAdd(id, data) => AddLog(id, data, newVersion)
    case ReqChange(id, v, data) => ChangeLog(id, v, data, newVersion)
  }

  /** Requests of a concatenation are the concatenation of the requests:
      the pass scans the rows once, front to back. */
  lemma {:induction false} RequestsConcat(a: seq<Row>, b: seq<Row>)
    ensures Requests(a + b) == Requests(a) + Requests(b)
    decreases |b|
  {
    if |b| == 0 {
      assert a + b == a;
    } else {
      assert (a + b)[..|a + b| - 1] == a + b[..|b| - 1];
      RequestsConcat(a, b[..|b| - 1]);
    }
  }

  /** There are as many requests as rows waiting for upload, and each is
      the one some waiting row's state calls for: a Del for a tombstone, an
      Add for a row the server never versioned, a Change otherwise. */
  lemma {:induction false} RequestsExact(rows: seq<Row>)
    ensures |Requests(rows)| == |Waiting(rows)|
    ensures forall q :: q in Requests(rows) ==>
      exists i :: 0 <= i < |rows| && rows[i].flag == WaitSync && q == RequestOf(rows[i])
    decreases |rows|
  {
    if |rows| > 0 {
      var n := |rows| - 1;
      var p := rows[..n];
      RequestsExact(p);
      WaitingGrows(rows);
      forall q | q in Requests(rows)
        ensures exists i :: 0 <= i < |rows| && rows[i].flag == WaitSync && q == RequestOf(rows[i])
      {
        if q in Requests(p) {
          var i :| 0 <= i < |p| && p[i].flag == WaitSync && q == RequestOf(p[i]);
          assert rows[i] == p[i];
        } else {
          assert q == RequestOf(rows[n]);
        }
      }
    }
  }

  /** The positions of the rows waiting for upload. */
  function Waiting(rows: seq<Row>): (w: set<nat>)
    ensures forall i :: i in w <==> 0 <= i < |rows| && rows[i].flag == WaitSync
  {
    set i: nat | i < |rows| && rows[i].flag == WaitSync
  }

  /** The waiting rows of a list are those of its front plus, when it
      waits, its last row. */
  lemma WaitingGrows(rows: seq<Row>)
    requires |rows| > 0
    ensures var n := |rows| - 1;
            |Waiting(rows)| == |Waiting(rows[..n])| + (if rows[n].flag == WaitSync then 1 else 0)
  {
    var n := |rows| - 1;
    var front := Waiting(rows[..n]);
    if rows[n].flag == WaitSync {
      assert Waiting(rows) == front + {n};
    } else {
      assert Waiting(rows) == front;
    }
  }

  /** A second upload pass sends nothing and changes nothing. */
  lemma UploadIdempotent(c: Client)
    ensures UploadChanges(UploadChanges(c).0).0 == UploadChanges(c).0
    ensures UploadChanges(UploadChanges(c).0).1 == []
  {
    var u := UploadChanges(c).0;
    NoneWaiting(u.rows);
  }

  lemma {:induction false} NoneWaiting(rows: seq<Row>)
    requires forall i :: 0 <= i < |rows| ==> rows[i].flag != WaitSync
    ensures Requests(rows) == []
    decreases |rows|
  {
    if |rows| > 0 {
      NoneWaiting(rows[..|rows| - 1]);
    }
  }

  /** Editing an uploaded row and uploading sends one Change quoting the
      version the client holds; deleting it sends one Del quoting it. */
  lemma {:induction false} EditThenUpload(row: Row, data: Bytes)
    requires row.flag == SyncDone && !row.deleted && row.version != ""
    ensures var c := ModifyRecord(Client("", [row]), row.id, data);
      c.ok && UploadChanges(c.client).1 == [ReqChange(row.id, row.version, data)]
    ensures var c := DelRecord(Client("", [row]), row.id);
      c.ok && UploadChanges(c.client).1 == [ReqDel(row.id, row.version)]
  {
    var m := ModifyRecord(Client("", [row]), row.id, data);
    assert m.client.rows == [row.(flag := WaitSync, data := data)];
    RequestsConcat([], m.client.rows);
    assert m.client.rows[..0] == [];
    var d := DelRecord(Client("", [row]), row.id);
    assert d.client.rows == [row.(deleted := true, flag := WaitSync)];
    assert d.client.rows[..0] == [];
  }

  // ---------------------------------------------------------------- catch-up

  /** applyAddRecord: refused for a row already synced; otherwise the row
      is replaced in place, or appended when the client has no such row
      (the append path reports false although it changed the rows). */
  function ApplyAddRecord(rows: seq<Row>, id: string, data: Bytes, newVersion: string): (r: (seq<Row>, bool))
    ensures Find(rows, id).Some? && rows[Find(rows, id).value].flag == SyncDone ==> r == (rows, false)
    ensures Find(rows, id).Some? && rows[Find(rows, id).value].flag != SyncDone ==>
      r == (rows[Find(rows, id).value := SyncedRow(id, data, newVersion)], true)
    ensures Find(rows, id).None? ==> r == (rows + [SyncedRow(id, data, newVersion)], false)
  {
    match Find(rows, id)
    case None => (rows + [SyncedRow(id, data, newVersion)], false)
    case Some(i) =>
      if rows[i].flag == SyncDone then (rows, false)
      else (rows[i := SyncedRow(id, data, newVersion)], true)
  }

  /** The check applyChangeRecord and applyDelRecord share: the row exists
      and, once synced, holds the quoted version. */
  predicate Accepts(rows: seq<Row>, id: string, version: string) {
    Find(rows, id).Some? &&
    (rows[Find(rows, id).value].flag != SyncDone || rows[Find(rows, id).value].version == version)
  }

  /** applyChangeRecord. */
  function ApplyChangeRecord(rows: seq<Row>, id: string, version: string, data: Bytes, newVersion: string): (r: (seq<Row>, bool))
    ensures r.1 <==> Accepts(rows, id, version)
    ensures !r.1 ==> r.0 == rows
    ensures r.1 ==> r.0 == rows[Find(rows, id).value := SyncedRow(id, data, newVersion)]
  {
    if Accepts(rows, id, version) then (rows[Find(rows, id).value := SyncedRow(id, data, newVersion)], true)
    else (rows, false)
  }

  /** applyDelRecord. */
  function ApplyDelRecord(rows: seq<Row>, id: string, version: string): (r: (seq<Row>, bool))
    ensures r.1 <==> Accepts(rows, id, version)
    ensures !r.1 ==> r.0 == rows
    ensures r.1 ==> r.0 == Remove(rows, Find(rows, id).value)
  {
    if Accepts(rows, id, version) then (Remove(rows, Find(rows, id).value), true)
    else (rows, false)
  }

  function FromRecord(rr: RecordRow): Row {
    Row(rr.id, rr.version, rr.flag, rr.deleted, rr.data)
  }

  /** applySnapshot: an undecodable payload changes nothing; otherwise the
      rows become the snapshot's rows, and the cursor is left at the last
      row's ID (the caller overwrites it right after). */
  function ApplySnapshot(c: Client, d: Option<SnapshotData>): (r: Edit)
    ensures r.ok <==> d.Some?
    ensures d.None? ==> r.client == c
    ensures d.Some? ==> (|r.client.rows| == |d.value.records| &&
      forall i :: 0 <= i < |d.value.records| ==> r.client.rows[i] == FromRecord(d.value.records[i]))
  {
    match d
    case None => Edit(c, false)
    case Some(s) =>
      var rows := seq(|s.records|, i requires 0 <= i < |s.records| => FromRecord(s.records[i]));
      var cursor := if |s.records| == 0 then c.cursor else s.records[|s.records| - 1].id;
      Edit(Client(cursor, rows), true)
  }

  /** The cursor a log leaves behind: its sequence number in wire form,
      truncated to uint64. */
  function Cursor(seqId: nat): string {
    SeqId.N2S(seqId % (MaxUint64 + 1))
  }

  /** One log of SyncFromServer's loop: plugin logs are skipped without
      moving the cursor; every other log is applied by op type (an unknown
      op type changes nothing) and moves the cursor to its sequence number
      whether or not applying it succeeded. */
  function ApplyLog(c: Client, log: Log): (r: Client)
    ensures log.pluginId != "" ==> r == c
    ensures log.pluginId == "" ==> r.cursor == Cursor(log.seqId)
  {
    if log.pluginId != "" then c
    else
      var applied := match log.op
        case Add => c.(rows := ApplyAddRecord(c.rows, log.recordId, log.ds, log.newVersionId).0)
        case Del => c.(rows := ApplyDelRecord(c.rows, log.recordId, log.versionId).0)
        case Change => c.(rows := ApplyChangeRecord(c.rows, log.recordId, log.versionId, log.ds, log.newVersionId).0)
        case Snapshot => ApplySnapshot(c, log.snapshot).client
        case OtherOp(_) => c;
      applied.(cursor := Cursor(log.seqId))
  }

  /** A sync applies the pulled logs in order; plugin logs pass the client by. */
  function Replay(c: Client, logs: seq<Log>): (o: Client)
    ensures (forall i :: 0 <= i < |logs| ==> logs[i].pluginId != "") ==> o == c
    decreases |logs|
  {
    if |logs| == 0 then c else Replay(ApplyLog(c, logs[0]), logs[1..])
  }

  /** SyncFromServer over the result of GetAllLogs(cursor): a fetch error
      leaves the client as it was. */
  function SyncFromServer(c: Client, fetched: Result<seq<Log>>): (r: Result<Client>)
    ensures fetched.Err? ==> r == Err(fetched.code)
    ensures fetched.Ok? ==> r.Ok?
  {
    match fetched
    case Err(e) => Err(e)
    case Ok(logs) => Ok(Replay(c, logs))
  }

  /** The index of the last non-plugin log. */
  function LastRecordLog(logs: seq<Log>): (r: Option<nat>)
    ensures r.Some? ==> (r.value < |logs| && logs[r.value].pluginId == "" &&
      forall j :: r.value < j < |logs| ==> logs[j].pluginId != "")
    ensures r.None? ==> forall j :: 0 <= j < |logs| ==> logs[j].pluginId != ""
    decreases |logs|
  {
    if |logs| == 0 then None
    else if logs[|logs| - 1].pluginId == "" then Some(|logs| - 1)
    else LastRecordLog(logs[..|logs| - 1])
  }

  /** Catching up in two fetches is catching up once over both. */
  lemma {:induction false} ReplayConcat(c: Client, a: seq<Log>, b: seq<Log>)
    ensures Replay(c, a + b) == Replay(Replay(c, a), b)
    decreases |a|
  {
    if |a| == 0 {
      assert a + b == b;
    } else {
      assert (a + b)[1..] == a[1..] + b;
      ReplayConcat(ApplyLog(c, a[0]), a[1..], b);
    }
  }

  /** After a sync the cursor names the last non-plugin log of the stream,
      and is unchanged when there was none. */
  lemma {:induction false} ReplayCursor(c: Client, logs: seq<Log>)
    ensures LastRecordLog(logs).None? ==> Replay(c, logs).cursor == c.cursor
    ensures LastRecordLog(logs).Some? ==>
      Replay(c, logs).cursor == Cursor(logs[LastRecordLog(logs).value].seqId)
    decreases |logs|
  {
    if |logs| > 0 {
      var n := |logs| - 1;
      var p := logs[..n];
      ReplayConcat(c, p, [logs[n]]);
      assert p + [logs[n]] == logs;
      ReplayCursor(c, p);
      var mid := Replay(c, p);
      assert Replay(mid, [logs[n]]) == ApplyLog(mid, logs[n]);
      if logs[n].pluginId != "" {
        assert LastRecordLog(logs) == LastRecordLog(p);
        if LastRecordLog(p).Some? {
          assert logs[LastRecordLog(p).value] == p[LastRecordLog(p).value];
        }
      }
    }
  }

  /** The cursor a sync leaves reads back at the server as "resume right
      after that log". */
  lemma CursorResumes(seqId: nat)
    requires seqId < MaxUint64
    ensures SyncRead.StartSeq(Cursor(seqId)) == Ok(seqId + 1)
  {
    assert seqId % (MaxUint64 + 1) == seqId;
    var c := SeqId.N2S(seqId);
    assert Cursor(seqId) == c;
    SeqId.RoundTrip(seqId);
    assert c != "";
    assert (seqId + 1) % (MaxUint64 + 1) == seqId + 1;
  }

  // ---------------------------------------------------------------- agreement with the reducer

  /** The rows as the server-side record cache would hold them. */
  function ToRecord(row: Row): RecordRow {
    RecordRow(row.id, row.version, row.flag, row.deleted, row.data, 0)
  }

  function Ids(rows: seq<Row>): set<string> {
    set i | 0 <= i < |rows| :: rows[i].id
  }

  /** The client's rows keyed by ID, the first row winning as in the scans. */
  function View(rows: seq<Row>): (m: map<string, RecordRow>)
    ensures forall id :: id in m <==> Find(rows, id).Some?
  {
    map id | id in Ids(rows) :: ToRecord(rows[Find(rows, id).value])
  }

  lemma ViewAt(rows: seq<Row>, id: string)
    requires Find(rows, id).Some?
    ensures id in View(rows) && View(rows)[id] == ToRecord(rows[Find(rows, id).value])
  {
    assert rows[Find(rows, id).value].id == id;
  }

  /** A first match for `id` pins down the scan result. */
  lemma FindIs(rows: seq<Row>, id: string, k: nat)
    requires k < |rows| && rows[k].id == id
    requires forall j :: 0 <= j < k ==> rows[j].id != id
    ensures Find(rows, id) == Some(k)
  {
  }

  /** Overwriting the first row with an ID, keeping the ID, moves no scan. */
  lemma FindUpdate(rows: seq<Row>, i: nat, row: Row, x: string)
    requires Find(rows, row.id) == Some(i)
    ensures Find(rows[i := row], x) == Find(rows, x)
  {
    var t := rows[i := row];
    forall j | 0 <= j < |t| ensures t[j].id == rows[j].id { }
    if Find(rows, x).Some? { FindIs(t, x, Find(rows, x).value); }
  }

  /** An entry of the view after the overwrite is the new row for its ID
      and the old entry for every other ID. */
  lemma ViewUpdateAt(rows: seq<Row>, i: nat, row: Row, x: string)
    requires Find(rows, row.id) == Some(i)
    requires x in View(rows[i := row])
    ensures x in View(rows)
    ensures View(rows[i := row])[x] == if x == row.id then ToRecord(row) else View(rows)[x]
  {
    var t := rows[i := row];
    FindUpdate(rows, i, row, x);
    ViewAt(t, x);
    ViewAt(rows, x);
  }

  lemma ViewUpdate(rows: seq<Row>, i: nat, row: Row)
    requires Find(rows, row.id) == Some(i)
    ensures View(rows[i := row]) == View(rows)[row.id := ToRecord(row)]
  {
    var l := View(rows[i := row]);
    var r := View(rows)[row.id := ToRecord(row)];
    forall x | x in l ensures x in r && l[x] == r[x] {
      ViewUpdateAt(rows, i, row, x);
    }
    forall x | x in r ensures x in l {
      FindUpdate(rows, i, row, x);
    }
  }

  /** Where each surviving row sits after a removal. */
  lemma RemoveIndex(rows: seq<Row>, i: nat)
    requires i < |rows|
    ensures forall j :: 0 <= j < |Remove(rows, i)| ==>
      Remove(rows, i)[j] == (if j < i then rows[j] else rows[j + 1])
  {
    var t := Remove(rows, i);
    forall j | 0 <= j < |t| ensures t[j] == (if j < i then rows[j] else rows[j + 1]) {
      if j < i { assert t[j] == rows[..i][j]; } else { assert t[j] == rows[i + 1..][j - i]; }
    }
  }

  /** Removing the row with a unique ID makes that ID unknown. */
  lemma FindRemoveGone(rows: seq<Row>, i: nat)
    requires i < |rows| && Distinct(rows)
    ensures Find(Remove(rows, i), rows[i].id).None?
  {
    RemoveIndex(rows, i);
  }

  /** Removing a row shifts the later scans for other IDs by one. */
  lemma FindRemoveOther(rows: seq<Row>, i: nat, x: string)
    requires i < |rows| && x != rows[i].id
    ensures Find(Remove(rows, i), x) ==
      match Find(rows, x) case None => None case Some(k) => Some(if k < i then k else k - 1)
  {
    if Find(rows, x).None? {
      FindRemoveMissing(rows, i, x);
    } else {
      FindRemoveFound(rows, i, x, Find(rows, x).value);
    }
  }

  lemma FindRemoveMissing(rows: seq<Row>, i: nat, x: string)
    requires i < |rows| && Find(rows, x).None?
    ensures Find(Remove(rows, i), x).None?
  {
    var t := Remove(rows, i);
    forall j | 0 <= j < |t| ensures t[j].id != x {
      RemoveAt(rows, i, j);
    }
  }

  lemma FindRemoveFound(rows: seq<Row>, i: nat, x: string, k: nat)
    requires i < |rows| && x != rows[i].id && Find(rows, x) == Some(k)
    ensures Find(Remove(rows, i), x) == Some(if k < i then k else k - 1)
  {
    var t := Remove(rows, i);
    var k' := if k < i then k else k - 1;
    RemoveAt(rows, i, k');
    forall j | 0 <= j < k' ensures t[j].id != x {
      RemoveAt(rows, i, j);
    }
    FindIs(t, x, k');
  }

  lemma RemoveAt(rows: seq<Row>, i: nat, j: nat)
    requires i < |rows| && j < |rows| - 1
    ensures Remove(rows, i)[j] == (if j < i then rows[j] else rows[j + 1])
  {
    if j < i { assert Remove(rows, i)[j] == rows[..i][j]; }
    else { assert Remove(rows, i)[j] == rows[i + 1..][j - i]; }
  }

  /** An entry of the view after a removal is the same entry before it. */
  lemma ViewRemoveAt(rows: seq<Row>, i: nat, x: string)
    requires i < |rows| && Distinct(rows)
    requires x in View(Remove(rows, i))
    ensures x != rows[i].id && x in View(rows) && View(Remove(rows, i))[x] == View(rows)[x]
  {
    var t := Remove(rows, i);
    FindRemoveGone(rows, i);
    assert x != rows[i].id;
    if Find(rows, x).None? {
      FindRemoveMissing(rows, i, x);
      assert false;
    }
    var k := Find(rows, x).value;
    var k' := if k < i then k else k - 1;
    FindRemoveFound(rows, i, x, k);
    RemoveAt(rows, i, k');
    ViewAt(t, x);
    ViewAt(rows, x);
  }

  lemma ViewRemove(rows: seq<Row>, i: nat)
    requires i < |rows| && Distinct(rows)
    ensures View(Remove(rows, i)) == View(rows) - {rows[i].id}
  {
    var l := View(Remove(rows, i));
    var r := View(rows) - {rows[i].id};
    forall x | x in l ensures x in r && l[x] == r[x] {
      ViewRemoveAt(rows, i, x);
    }
    forall x | x in r ensures x in l {
      FindRemoveOther(rows, i, x);
    }
  }

  lemma FindAppend(rows: seq<Row>, row: Row, x: string)
    requires Find(rows, row.id).None?
    ensures Find(rows + [row], x) == (if x == row.id then Some(|rows|) else Find(rows, x))
  {
    var t := rows + [row];
    forall j | 0 <= j < |rows| ensures t[j] == rows[j] { }
    if x == row.id { FindIs(t, x, |rows|); }
    else if Find(rows, x).Some? { FindIs(t, x, Find(rows, x).value); }
  }

  lemma ViewAppend(rows: seq<Row>, row: Row)
    requires Find(rows, row.id).None?
    ensures View(rows + [row]) == View(rows)[row.id := ToRecord(row)]
  {
    var t := rows + [row];
    var l := View(t);
    var r := View(rows)[row.id := ToRecord(row)];
    forall x | x in l ensures x in r && l[x] == r[x] {
      FindAppend(rows, row, x);
      ViewAt(t, x);
      if x != row.id { ViewAt(rows, x); }
    }
    forall x | x in r ensures x in l {
      FindAppend(rows, row, x);
    }
  }

  /** The client's acceptance check is the reducer's version check, read
      through `View`. */
  lemma AcceptsAgrees(rows: seq<Row>, id: string, version: string)
    ensures Accepts(rows, id, version) <==> R.CheckVersion(View(rows), id, version).None?
  {
    if Find(rows, id).Some? { ViewAt(rows, id); }
  }

  lemma AddAgrees(rows: seq<Row>, id: string, data: Bytes, nv: string)
    ensures var res := R.ApplyAdd(View(rows), id, data, nv);
      View(ApplyAddRecord(rows, id, data, nv).0) == (if res.Ok? then res.value else View(rows))
  {
    var f := Find(rows, id);
    var synced := SyncedRow(id, data, nv);
    assert ToRecord(synced) == R.Synced(id, data, nv);
    if f.None? {
      ViewAppend(rows, synced);
    } else {
      ViewAt(rows, id);
      if rows[f.value].flag != SyncDone {
        ViewUpdate(rows, f.value, synced);
      }
    }
  }

  lemma ChangeAgrees(rows: seq<Row>, id: string, version: string, data: Bytes, nv: string)
    ensures var res := R.ApplyChange(View(rows), id, version, data, nv);
      var r := ApplyChangeRecord(rows, id, version, data, nv);
      (r.1 <==> res.Ok?) && View(r.0) == (if res.Ok? then res.value else View(rows))
  {
    AcceptsAgrees(rows, id, version);
    if Accepts(rows, id, version) {
      var synced := SyncedRow(id, data, nv);
      assert ToRecord(synced) == R.Synced(id, data, nv);
      ViewUpdate(rows, Find(rows, id).value, synced);
    }
  }

  lemma DelAgrees(rows: seq<Row>, id: string, version: string)
    requires Distinct(rows)
    ensures var res := R.ApplyDel(View(rows), id, version);
      var r := ApplyDelRecord(rows, id, version);
      (r.1 <==> res.Ok?) && View(r.0) == (if res.Ok? then res.value else View(rows))
  {
    AcceptsAgrees(rows, id, version);
    if Accepts(rows, id, version) {
      ViewRemove(rows, Find(rows, id).value);
    }
  }

  /** Seen through `View`, the client applies an add, change or delete
      exactly as the server's record reducer does, and accepts a change or
      delete exactly when the reducer does. */
  lemma ApplyAgrees(c: Client, log: Log)
    requires Distinct(c.rows) && log.pluginId == ""
    requires log.op.Add? || log.op.Del? || log.op.Change?
    ensures View(ApplyLog(c, log).rows) == SB.RecordStep(View(c.rows), log)
    ensures log.op.Change? ==>
      (ApplyChangeRecord(c.rows, log.recordId, log.versionId, log.ds, log.newVersionId).1 <==>
       R.ApplyChange(View(c.rows), log.recordId, log.versionId, log.ds, log.newVersionId).Ok?)
    ensures log.op.Del? ==>
      (ApplyDelRecord(c.rows, log.recordId, log.versionId).1 <==>
       R.ApplyDel(View(c.rows), log.recordId, log.versionId).Ok?)
  {
    match log.op
    case Add => AddAgrees(c.rows, log.recordId, log.ds, log.newVersionId);
    case Change => ChangeAgrees(c.rows, log.recordId, log.versionId, log.ds, log.newVersionId);
    case Del => DelAgrees(c.rows, log.recordId, log.versionId);
  }

  // ---------------------------------------------------------------- convergence

  /** A row uploaded as an add and not yet echoed back. */
  predicate PendingAdd(row: Row) {
    row.flag == SyncToServer && row.version == "" && !row.deleted
  }

  /** `a` is the uploader's in-flight version of the other client's synced
      row `b`: sent from the same version. */
  predicate InFlight(a: Row, b: Row) {
    a.flag == SyncToServer && b.flag == SyncDone && a.version == b.version
  }

  /** How the uploader's rows `r1` relate to an observer's rows `r2` while
      the uploads are in flight: the same rows in the same order, except
      rows the uploader changed or deleted and sent, followed by the rows it
      added and sent. */
  ghost predicate Mirror(r1: seq<Row>, r2: seq<Row>) {
    |r2| <= |r1| && Distinct(r1) &&
    (forall i :: 0 <= i < |r2| ==> r1[i].id == r2[i].id && (r1[i] == r2[i] || InFlight(r1[i], r2[i]))) &&
    (forall i :: |r2| <= i < |r1| ==> PendingAdd(r1[i]))
  }

  /** `log` is the server's echo of one of the uploader's in-flight rows:
      a Del or Change quoting the version it was sent from, or an Add for
      the first of its pending adds. */
  ghost predicate Echoes(r1: seq<Row>, r2: seq<Row>, log: Log) {
    log.pluginId == "" &&
    match Find(r1, log.recordId)
    case None => false
    case Some(i) =>
      r1[i].flag == SyncToServer &&
      if i < |r2| then
        (log.op == Del && r1[i].deleted && log.versionId == r1[i].version) ||
        (log.op == Change && !r1[i].deleted && log.versionId == r1[i].version)
      else
        i == |r2| && log.op == Add
  }

  /** Every log of the stream echoes an upload still in flight at that point. */
  ghost predicate EchoStream(c1: Client, c2: Client, logs: seq<Log>)
    decreases |logs|
  {
    |logs| == 0 ||
    (Echoes(c1.rows, c2.rows, logs[0]) &&
     EchoStream(ApplyLog(c1, logs[0]), ApplyLog(c2, logs[0]), logs[1..]))
  }

  predicate NoneInFlight(rows: seq<Row>) {
    forall i :: 0 <= i < |rows| ==> rows[i].flag != SyncToServer
  }

  /** The prefix relation puts each in-flight ID at the same index in both. */
  lemma FindMirror(r1: seq<Row>, r2: seq<Row>, id: string)
    requires Mirror(r1, r2) && Find(r1, id).Some?
    ensures Find(r1, id).value < |r2| ==> Find(r2, id) == Find(r1, id)
    ensures Find(r1, id).value >= |r2| ==> Find(r2, id).None?
  {
    var i := Find(r1, id).value;
    if i < |r2| {
      FindIs(r2, id, i);
    } else {
      forall j | 0 <= j < |r2| ensures r2[j].id != id {
        assert r1[j].id == r2[j].id;
      }
    }
  }

  lemma EchoStep(c1: Client, c2: Client, log: Log)
    requires Mirror(c1.rows, c2.rows) && Echoes(c1.rows, c2.rows, log)
    ensures Mirror(ApplyLog(c1, log).rows, ApplyLog(c2, log).rows)
  {
    FindMirror(c1.rows, c2.rows, log.recordId);
    if log.op == Del {
      EchoDel(c1.rows, c2.rows, Find(c1.rows, log.recordId).value);
    } else if log.op == Change {
      EchoChange(c1.rows, c2.rows, Find(c1.rows, log.recordId).value,
                 SyncedRow(log.recordId, log.ds, log.newVersionId));
    } else {
      EchoAdd(c1.rows, c2.rows, SyncedRow(log.recordId, log.ds, log.newVersionId));
    }
  }

  lemma EchoDel(r1: seq<Row>, r2: seq<Row>, i: nat)
    requires Mirror(r1, r2) && i < |r2|
    ensures Mirror(Remove(r1, i), Remove(r2, i))
  {
    var t1, t2 := Remove(r1, i), Remove(r2, i);
    forall j | 0 <= j < |t1| ensures t1[j] == (if j < i then r1[j] else r1[j + 1]) { }
    forall j | 0 <= j < |t2| ensures t2[j] == (if j < i then r2[j] else r2[j + 1]) { }
  }

  lemma EchoChange(r1: seq<Row>, r2: seq<Row>, i: nat, synced: Row)
    requires Mirror(r1, r2) && i < |r2| && synced.id == r1[i].id && synced.flag == SyncDone
    ensures Mirror(r1[i := synced], r2[i := synced])
  {
  }

  lemma EchoAdd(r1: seq<Row>, r2: seq<Row>, synced: Row)
    requires Mirror(r1, r2) && |r2| < |r1| && synced.id == r1[|r2|].id && synced.flag == SyncDone
    ensures Mirror(r1[|r2| := synced], r2 + [synced])
  {
  }

  /** Once the uploader has heard back every upload, the two clients hold
      the same rows in the same order. */
  lemma Settle(r1: seq<Row>, r2: seq<Row>)
    requires Mirror(r1, r2) && NoneInFlight(r1)
    ensures r1 == r2
  {
    assert |r2| < |r1| ==> PendingAdd(r1[|r2|]);
    assert |r1| == |r2|;
    assert forall i :: 0 <= i < |r1| ==> r1[i] == r2[i];
  }

  /** Two clients converge: an uploader and an observer that agreed before
      the upload, except for what the uploader sent, replay the server's
      echo of those uploads and end with equal rows once the uploader has
      nothing left in flight. */
  lemma {:induction false} Converge(c1: Client, c2: Client, logs: seq<Log>)
    requires Mirror(c1.rows, c2.rows) && EchoStream(c1, c2, logs)
    requires NoneInFlight(Replay(c1, logs).rows)
    ensures Replay(c1, logs).rows == Replay(c2, logs).rows
    decreases |logs|
  {
    if |logs| == 0 {
      Settle(c1.rows, c2.rows);
    } else {
      EchoStep(c1, c2, logs[0]);
      Converge(ApplyLog(c1, logs[0]), ApplyLog(c2, logs[0]), logs[1..]);
    }
  }

  /** A decodable snapshot in the stream erases every earlier difference:
      any two clients end with the same rows and cursor. */
  lemma {:induction false} SnapshotConverges(c1: Client, c2: Client, a: seq<Log>, snap: Log, b: seq<Log>)
    requires snap.pluginId == "" && snap.op == Snapshot && snap.snapshot.Some?
    ensures Replay(c1, a + [snap] + b) == Replay(c2, a + [snap] + b)
  {
    ReplayConcat(c1, a + [snap], b);
    ReplayConcat(c2, a + [snap], b);
    ReplayConcat(c1, a, [snap]);
    ReplayConcat(c2, a, [snap]);
    var m1, m2 := Replay(c1, a), Replay(c2, a);
    assert Replay(m1, [snap]) == ApplyLog(m1, snap);
    assert Replay(m2, [snap]) == ApplyLog(m2, snap);
    assert ApplyLog(m1, snap) == ApplyLog(m2, snap);
  }
}
