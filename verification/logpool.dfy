/** One file-backed log pool: an append-only sequence whose entries are
    stamped with their own index. */
module LogPool {
  import opened Wrappers
  import opened SyncModel

  type Pool = seq<Log>

  /** Every entry carries its index as its sequence number. */
  predicate Stamped(p: Pool) {
    forall i :: 0 <= i < |p| ==> p[i].seqId == i
  }

  /** AddRecordLog: only the next free index is accepted; the entry is
      stored with its index as sequence number. */
  function AddRecordLog(p: Pool, index: nat, log: Log): (r: Result<Pool>)
    ensures r.Ok? <==> index == |p|
    ensures r.Err? ==> r.code == Logic
    ensures r.Ok? ==> |r.value| == |p| + 1 && r.value[..|p|] == p
    ensures r.Ok? ==> r.value[index] == log.(seqId := index)
  {
    if |p| != index then Err(Logic) else Ok(p + [log.(seqId := index)])
  }

  /** Appending keeps a stamped pool stamped. */
  lemma AddKeepsStamped(p: Pool, index: nat, log: Log)
    requires Stamped(p) && AddRecordLog(p, index, log).Ok?
    ensures Stamped(AddRecordLog(p, index, log).value)
  {
    var q := AddRecordLog(p, index, log).value;
    forall i | 0 <= i < |q| ensures q[i].seqId == i {
      if i < |p| { assert q[i] == q[..|p|][i]; }
    }
  }

  /** GetRecordLogs: an end of 0 or past the last entry means "to the end";
      an end before the start gives nothing. */
  function GetRecordLogs(p: Pool, start: nat, end: nat): (r: seq<Log>)
    ensures |r| <= |p|
  {
    if |p| == 0 then []
    else
      var e := if end == 0 || end > |p| then |p| else end;
      if e < start then [] else p[start..e]
  }

  /** Reading from `start` to the end returns exactly the stored suffix. */
  lemma GetRecordLogsSuffix(p: Pool, start: nat)
    ensures start <= |p| ==> GetRecordLogs(p, start, 0) == p[start..]
    ensures start > |p| ==> GetRecordLogs(p, start, 0) == []
  {}

  /** A bounded read returns the entries between `start` and `end`. */
  lemma GetRecordLogsWindow(p: Pool, start: nat, end: nat)
    requires 0 < end <= |p|
    ensures GetRecordLogs(p, start, end) == if end < start then [] else p[start..end]
  {}

  /** GetRecordLog: the entry at `index`, if there is one. */
  function GetRecordLog(p: Pool, index: nat): (r: Option<Log>)
    ensures r.Some? <==> index < |p|
    ensures r.Some? ==> r.value == p[index]
  {
    var logs := GetRecordLogs(p, index, index + 1);
    if |logs| == 0 then None else Some(logs[0])
  }

  /** GetLastRecordLog: the last index and entry of a non-empty pool. */
  function GetLastRecordLog(p: Pool): (r: Option<(nat, Log)>)
    ensures r.Some? <==> |p| > 0
    ensures r.Some? ==> r.value.0 == |p| - 1 && r.value.1 == p[|p| - 1]
  {
    if |p| == 0 then None else Some((|p| - 1, p[|p| - 1]))
  }

  /** After a successful append the last entry is the stamped new one. */
  lemma LastAfterAdd(p: Pool, index: nat, log: Log)
    requires AddRecordLog(p, index, log).Ok?
    ensures GetLastRecordLog(AddRecordLog(p, index, log).value) == Some((index, log.(seqId := index)))
  {}
}
