/** The entities the syncer moves around: log entries, the crash marker,
    the record rows of a snapshot and the type-table plugin payloads. */
module SyncModel {
  import opened Wrappers

  newtype Byte = x: int | 0 <= x < 256
  type Bytes = seq<Byte>

  /** OpType; any other integer a plugin modifier might put there is kept. */
  datatype OpType = Add | Del | Change | Snapshot | OtherOp(code: int)

  /** UpdateFlag of a record row. */
  datatype UpdateFlag = WaitSync | SyncToServer | SyncDone

  /** RecordRow. `at` is the row's timestamp as an integer. */
  datatype RecordRow = RecordRow(id: string, version: string, flag: UpdateFlag,
                                 deleted: bool, data: Bytes, at: int)

  /** The decoded JSON payload of a type-table plugin log (TypeTableLog;
      the bookkeeping variant only reads `metaType`). */
  datatype PluginMeta = PluginMeta(metaType: int, labelText: string, parentId: string,
                                   toRecordId: string, at: int)

  /** A type-table row. The bookkeeping variant only carries `id` and
      `data`; the other fields stay at their zero values there. */
  datatype TypeRow = TypeRow(id: string, labelText: string, data: Bytes,
                             parentId: string, toId: string, at: int)

  /** TypeTableSnapshotData. */
  datatype TypeTableData = TypeTableData(income: seq<TypeRow>, expenses: seq<TypeRow>)

  /** PluginSnapshotData; `records` is None when the raw JSON does not decode
      as a type-table snapshot. */
  datatype PluginSnapshot = PluginSnapshot(id: string, records: Option<TypeTableData>)

  /** SnapshotData. */
  datatype SnapshotData = SnapshotData(records: seq<RecordRow>, plugins: seq<PluginSnapshot>)

  /** Log. `meta` is the decoded plugin payload (None when it does not
      decode); `snapshot` is the decoded `Ds` of a Snapshot entry. */
  datatype Log = Log(seqId: nat, op: OpType, recordId: string, ds: Bytes,
                     versionId: string, newVersionId: string, pluginId: string,
                     meta: Option<PluginMeta>, snapshot: Option<SnapshotData>)

  /** InterruptedLog: the crash marker written before an append. */
  datatype Marker = Marker(log: Log, pool: nat, index: nat)

  const EmptySnapshot := SnapshotData([], [])

  /** AppendAddRecordLog's entry. */
  function AddLog(recordId: string, data: Bytes, newVersion: string): (l: Log)
    ensures l.op == Add && l.recordId == recordId && l.ds == data
    ensures l.newVersionId == newVersion && l.pluginId == "" && l.seqId == 0
  {
    Log(0, Add, recordId, data, "", newVersion, "", None, None)
  }

  /** AppendDelRecordLog's entry. */
  function DelLog(recordId: string, version: string): (l: Log)
    ensures l.op == Del && l.recordId == recordId && l.versionId == version
    ensures l.pluginId == "" && l.seqId == 0
  {
    Log(0, Del, recordId, [], version, "", "", None, None)
  }

  /** AppendChangeRecordLog's entry. */
  function ChangeLog(recordId: string, version: string, data: Bytes, newVersion: string): (l: Log)
    ensures l.op == Change && l.recordId == recordId && l.ds == data
    ensures l.versionId == version && l.newVersionId == newVersion
    ensures l.pluginId == "" && l.seqId == 0
  {
    Log(0, Change, recordId, data, version, newVersion, "", None, None)
  }
}
