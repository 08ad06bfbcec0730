/** The syncer's write path: the persisted pool counters, the slot the next
    log goes to, the crash marker protocol around every append and the
    recovery that runs before it. Every storage call that can fail is a
    boolean fault parameter; the background snapshot builder only sees the queue
    of pool indexes this module fills. */
module Syncer {
  import opened Wrappers
  import opened SyncModel
  import opened LogPool

  /** Capacity of the snapshot request channel. */
  const QueueCap: nat := 10

  /** What the storage layer persists: pools by index, the snapshot
      written next to a pool, and the crash marker. */
  datatype Store = Store(pools: map<nat, Pool>, snapshots: map<nat, SnapshotData>, marker: Option<Marker>)

  /** The syncer: the snapshot log count `cap` (0 disables pooling), the
      counters (kept equal in memory and in the key-value store), the open
      pool handle (none after a failed open) and the snapshot request queue. */
  datatype Syncer = Syncer(cap: nat, cur: nat, next: nat, open: Option<nat>, queue: seq<nat>, store: Store)

  /** Which storage calls fail during one append. */
  datatype Faults = Faults(
    readMarker: bool,   // GetInterruptedLog
    recoverOpen: bool,  // NewLogPool while recovering
    readLast: bool,     // GetLastRecordLog
    recoverSave: bool,  // the counter save while recovering
    writeOpen: bool,    // NewLogPool for the selected pool
    preLog: bool,       // writing the marker
    append: bool,       // AddRecordLog
    save: bool,         // the counter save after the append
    afterLog: bool)     // AfterLog, whose error every caller ignores

  const NoFaults := Faults(false, false, false, false, false, false, false, false, false)

  /** How recovery compares the pool's last entry with the marker. */
  datatype Recovery =
    | AsWritten     // EqualLog(dbLog, marker.Log)
    | StampAware    // compare after giving the marker's log the index it was stored under

  /** The state after an operation and the error it returned, if any. */
  datatype Step = Step(state: Syncer, err: Option<Code>)

  /** NewLogPool(i): a pool that was never written is empty. */
  function PoolOf(st: Store, q: nat): Pool {
    if q in st.pools then st.pools[q] else []
  }

  /** A fresh syncer on empty storage. */
  function Fresh(cap: nat): Syncer {
    Syncer(cap, 0, 0, Some(0), [], Store(map[], map[], None))
  }

  /** init after a restart: counters come back from the key-value store, the
      current pool is opened and the (in-memory) request queue is empty. */
  function Restart(s: Syncer): (r: Syncer)
    ensures r.store == s.store && r.cur == s.cur && r.next == s.next
    ensures r.open == Some(s.cur) && r.queue == []
  {
    s.(open := Some(s.cur), queue := [])
  }

  /** getPoolIndexOnLock: the slot the next log goes to. */
  function SelectSlot(s: Syncer): (r: (nat, nat))
  {
    if s.cap == 0 then (0, s.next)
    else if s.next < s.cap then (s.cur, s.next)
    else (s.cur + 1, 0)
  }

  /** The global sequence number of slot (pool, index). */
  function SlotSeq(cap: nat, pool: nat, index: nat): nat {
    pool * cap + index
  }

  /** Number of logs the counters account for. */
  function Counter(s: Syncer): nat {
    if s.cap == 0 then s.next else s.cur * s.cap + s.next
  }

  /** The counters never run past a full pool, and without pooling
      everything lives in pool 0. */
  predicate CountersOk(s: Syncer) {
    (s.cap > 0 ==> s.next <= s.cap) && (s.cap == 0 ==> s.cur == 0)
  }

  /** The slot chosen for the next log is the one right after the last
      counted log: appends are gap-free. */
  lemma SelectSlotIsCounter(s: Syncer)
    requires CountersOk(s)
    ensures SlotSeq(s.cap, SelectSlot(s).0, SelectSlot(s).1) == Counter(s)
    ensures s.cap > 0 ==> SelectSlot(s).1 < s.cap
  {
    if s.cap > 0 && s.next >= s.cap {
      assert (s.cur + 1) * s.cap == s.cur * s.cap + s.cap;
    }
  }

  /** trySnapshot: queue a finished pool for the builder unless pooling is
      off or the queue is full (then the request is dropped). */
  function TrySnapshot(s: Syncer, pool: nat): (r: Syncer)
    ensures r.store == s.store && r.cap == s.cap && r.cur == s.cur && r.next == s.next && r.open == s.open
    ensures s.cap == 0 || |s.queue| >= QueueCap ==> r.queue == s.queue
    ensures s.cap > 0 && |s.queue| < QueueCap ==> r.queue == s.queue + [pool]
    ensures |s.queue| <= QueueCap ==> |r.queue| <= QueueCap
  {
    if s.cap == 0 || |s.queue| >= QueueCap then s else s.(queue := s.queue + [pool])
  }

  /** mustLogPoolByIndexOnLock: switching away from the open pool closes it
      and requests its snapshot; a pool is opened only when no handle is
      left, and a failed open (`fails`) leaves no handle. */
  function OpenPool(s: Syncer, pool: nat, fails: bool): (r: Syncer)
    ensures r.store == s.store && r.cap == s.cap && r.cur == s.cur && r.next == s.next
    ensures s.open == Some(pool) ==> r == s
    ensures s.open != Some(pool) ==> r.open == (if fails then None else Some(pool))
    ensures s.open.Some? && s.open.value != pool ==> r.queue == TrySnapshot(s, s.open.value).queue
    ensures s.open.None? ==> r.queue == s.queue
  {
    if s.open == Some(pool) then s
    else
      var closed := if s.open.Some? then TrySnapshot(s, s.open.value) else s;
      closed.(open := if fails then None else Some(pool))
  }

  function SetMarker(s: Syncer, m: Option<Marker>): Syncer {
    s.(store := s.store.(marker := m))
  }

  /** AfterLog: clears the marker, unless it fails; the callers drop its
      error, so a failure only leaves the marker behind. */
  function AfterLog(s: Syncer, fails: bool): (r: Syncer)
    ensures r.cap == s.cap && r.cur == s.cur && r.next == s.next && r.open == s.open && r.queue == s.queue
    ensures r.store.pools == s.store.pools && r.store.snapshots == s.store.snapshots
    ensures r.store.marker == (if fails then s.store.marker else None)
  {
    if fails then s else SetMarker(s, None)
  }

  /** The comparison recovery makes between the pool's last entry and the
      marker. */
  predicate SameLog(dbLog: Log, m: Marker, mode: Recovery) {
    match mode
    case AsWritten => dbLog == m.log
    case StampAware => dbLog == m.log.(seqId := m.index)
  }

  /** processUnexpectedLogsOnLock: a marker for the slot about to be used
      whose log is already the pool's last entry means the previous append
      landed but its counters were not saved, so the counters move past it;
      any other marker is discarded. A failed read, open or counter save is
      returned; a failed AfterLog is not. */
  function Recover(s: Syncer, f: Faults, mode: Recovery): (r: Step)
    ensures f.readMarker ==> r == Step(s, Some(Io))
    ensures !f.readMarker && s.store.marker.None? ==> r == Step(s, None)
    ensures r.err.Some? ==> r.err == Some(Io) && r.state.store == s.store
    ensures r.err.Some? ==> r.state.cur == s.cur && r.state.next == s.next
    ensures r.err.None? ==> r.state.store.marker == (if f.afterLog then s.store.marker else None)
    ensures r.state.store.pools == s.store.pools && r.state.store.snapshots == s.store.snapshots
    ensures r.state.cap == s.cap
  {
    if f.readMarker then Step(s, Some(Io))
    else match s.store.marker
    case None => Step(s, None)
    case Some(m) =>
      if m.pool != SelectSlot(s).0 then Step(AfterLog(s, f.afterLog), None)
      else
        var s1 := OpenPool(s, m.pool, f.recoverOpen);
        if s1.open.None? || f.readLast then Step(s1, Some(Io))
        else match GetLastRecordLog(PoolOf(s1.store, m.pool))
        case None => Step(AfterLog(s1, f.afterLog), None)
        case Some(last) =>
          if last.0 != m.index || !SameLog(last.1, m, mode) then Step(AfterLog(s1, f.afterLog), None)
          else if f.recoverSave then Step(s1, Some(Io))
          else Step(AfterLog(s1.(cur := m.pool, next := m.index + 1), f.afterLog), None)
  }

  /** tryNewLog: recover, then write the entry. */
  function TryNewLog(s: Syncer, entry: Result<Log>, f: Faults, mode: Recovery): (r: Step)
    ensures r.state.store.snapshots == s.store.snapshots
    ensures r.state.cap == s.cap
  {
    var rec := Recover(s, f, mode);
    if rec.err.Some? then rec else Write(rec.state, entry, f)
  }

  /** The write half of tryNewLog: build the entry, pick the slot, open its
      pool, write the marker, append, save the counters, clear the marker.
      A failed append still clears the marker; a failed counter save leaves
      it for the next recovery. */
  function Write(s: Syncer, entry: Result<Log>, f: Faults): (r: Step)
    ensures r.state.store.snapshots == s.store.snapshots
    ensures r.state.cap == s.cap
    ensures entry.Err? ==> r == Step(s, Some(entry.code))
    ensures entry.Ok? && (f.preLog || (f.writeOpen && s.open != Some(SelectSlot(s).0))) ==>
      r.err == Some(Io) && r.state.store == s.store
    ensures r.err.None? <==> (entry.Ok? && !f.preLog && !f.append && !f.save &&
                              !(f.writeOpen && s.open != Some(SelectSlot(s).0)) &&
                              AddRecordLog(PoolOf(s.store, SelectSlot(s).0), SelectSlot(s).1, entry.value).Ok?)
    ensures r.err.None? ==> r.state.store.pools == Advanced(s, entry.value).store.pools
    ensures r.err.None? ==> (r.state.cur, r.state.next) == (SelectSlot(s).0, SelectSlot(s).1 + 1)
    ensures r.err.None? ==>
      r.state.store.marker == (if f.afterLog then Some(Marker(entry.value, SelectSlot(s).0, SelectSlot(s).1)) else None)
    ensures r.err.Some? ==> r.state.cur == s.cur && r.state.next == s.next
    ensures r.err.Some? && r.state.store.pools != s.store.pools ==>
      entry.Ok? && f.save && !f.preLog && !f.append && !(f.writeOpen && s.open != Some(SelectSlot(s).0))
    ensures entry.Ok? ==> r.state.open == OpenPool(s, SelectSlot(s).0, f.writeOpen).open
    ensures entry.Ok? ==> r.state.queue == OpenPool(s, SelectSlot(s).0, f.writeOpen).queue
  {
    if entry.Err? then Step(s, Some(entry.code))
    else
      var slot := SelectSlot(s);
      var s2 := OpenPool(s, slot.0, f.writeOpen);
      if s2.open.None? || f.preLog then Step(s2, Some(Io))
      else
        var s3 := SetMarker(s2, Some(Marker(entry.value, slot.0, slot.1)));
        var added := if f.append then Err(Io) else AddRecordLog(PoolOf(s3.store, slot.0), slot.1, entry.value);
        if added.Err? then Step(AfterLog(s3, f.afterLog), Some(added.code))
        else
          var s4 := SetPool(s3, slot.0, added.value);
          if f.save then Step(s4, Some(Io))
          else Step(AfterLog(s4.(cur := slot.0, next := slot.1 + 1), f.afterLog), None)
  }

  /** The append every public operation uses: recovery compares stamps. */
  function Append(s: Syncer, entry: Result<Log>, f: Faults): (r: Step)
    ensures r.state.store.snapshots == s.store.snapshots && r.state.cap == s.cap
    ensures entry.Err? ==> r.err.Some? && r.state.store.pools == s.store.pools
    ensures f == NoFaults && s.store.marker.None? && entry.Ok? ==>
      (r.err.None? <==> AddRecordLog(PoolOf(s.store, SelectSlot(s).0), SelectSlot(s).1, entry.value).Ok?)
    ensures f == NoFaults && s.store.marker.None? && r.err.None? ==>
      r.state.store.pools == Advanced(s, entry.value).store.pools && r.state.store.marker.None?
  {
    TryNewLog(s, entry, f, StampAware)
  }

  /** The append as the source writes it. */
  function AppendAsWritten(s: Syncer, entry: Result<Log>, f: Faults): (r: Step)
    ensures r.state.store.snapshots == s.store.snapshots && r.state.cap == s.cap
    ensures entry.Err? ==> r.err.Some? && r.state.store.pools == s.store.pools
    ensures f == NoFaults && s.store.marker.None? && entry.Ok? ==>
      (r.err.None? <==> AddRecordLog(PoolOf(s.store, SelectSlot(s).0), SelectSlot(s).1, entry.value).Ok?)
    ensures f == NoFaults && s.store.marker.None? && r.err.None? ==>
      r.state.store.pools == Advanced(s, entry.value).store.pools && r.state.store.marker.None?
  {
    TryNewLog(s, entry, f, AsWritten)
  }

  /** AppendAddRecordLog; `newVersion` is the fresh snowflake ID in base 36. */
  function AppendAdd(s: Syncer, recordId: string, data: Bytes, newVersion: string, f: Faults): Step {
    Append(s, Ok(AddLog(recordId, data, newVersion)), f)
  }

  /** AppendDelRecordLog. */
  function AppendDel(s: Syncer, recordId: string, version: string, f: Faults): Step {
    Append(s, Ok(DelLog(recordId, version)), f)
  }

  /** AppendChangeRecordLog. */
  function AppendChange(s: Syncer, recordId: string, version: string, data: Bytes, newVersion: string, f: Faults): Step {
    Append(s, Ok(ChangeLog(recordId, version, data, newVersion)), f)
  }

  /** AppendPluginLog: the modifier's result is the entry. */
  function AppendPlugin(s: Syncer, modifier: Result<Log>, f: Faults): Step {
    Append(s, modifier, f)
  }

  // ---------------------------------------------------------------------
  // Pool invariants

  /** Every pool before the current one is full, the current one holds
      exactly `next` entries and later pools are untouched. */
  ghost predicate PoolsExact(s: Syncer) {
    CountersOk(s) &&
    |PoolOf(s.store, s.cur)| == s.next &&
    (forall q: nat :: q < s.cur ==> |PoolOf(s.store, q)| == s.cap) &&
    (forall q: nat :: q > s.cur ==> PoolOf(s.store, q) == [])
  }

  /** The state an interrupted append leaves: the marker names the next
      slot, that slot already holds the marker's log (as the pool stamps
      it), and without it the pools would be exact. */
  ghost predicate Landed(s: Syncer) {
    CountersOk(s) && s.store.marker.Some? &&
    var m := s.store.marker.value;
    var p := PoolOf(s.store, m.pool);
    (m.pool, m.index) == SelectSlot(s) && |p| == m.index + 1 &&
    p[m.index] == m.log.(seqId := m.index) &&
    PoolsExact(s.(store := s.store.(pools := s.store.pools[m.pool := p[..m.index]])))
  }

  /** The open pool and every queued request are at or before the pool
      being written (queued ones strictly before it). */
  ghost predicate HandlesOk(s: Syncer) {
    (s.open.Some? ==> s.open.value <= SelectSlot(s).0) &&
    (forall i :: 0 <= i < |s.queue| ==> s.queue[i] < SelectSlot(s).0) &&
    |s.queue| <= QueueCap
  }

  /** What the storage layer can be in between two appends. */
  ghost predicate Inv(s: Syncer) {
    HandlesOk(s) && (PoolsExact(s) || Landed(s))
  }

  /** The logs the counters account for, in slot order, as stored. */
  function Flat(st: Store, n: nat): seq<Log>
    decreases n
  {
    if n == 0 then [] else Flat(st, n - 1) + PoolOf(st, n - 1)
  }

  function Committed(s: Syncer): seq<Log> {
    Flat(s.store, s.cur) + PoolOf(s.store, s.cur)[..if s.next <= |PoolOf(s.store, s.cur)| then s.next else 0]
  }

  lemma {:induction false} FlatLength(s: Syncer, n: nat)
    requires PoolsExact(s) && n <= s.cur
    ensures |Flat(s.store, n)| == n * s.cap
    decreases n
  {
    if n > 0 {
      FlatLength(s, n - 1);
      assert |PoolOf(s.store, n - 1)| == s.cap;
    }
  }

  /** The committed log has exactly one entry per counted slot. */
  lemma CommittedLength(s: Syncer)
    requires PoolsExact(s)
    ensures |Committed(s)| == Counter(s)
  {
    FlatLength(s, s.cur);
  }

  /** Flattening only looks at the pools it covers. */
  lemma {:induction false} FlatFrame(a: Store, b: Store, n: nat)
    requires forall q: nat :: q < n ==> PoolOf(a, q) == PoolOf(b, q)
    ensures Flat(a, n) == Flat(b, n)
    decreases n
  {
    if n > 0 { FlatFrame(a, b, n - 1); }
  }

  function SetPool(s: Syncer, q: nat, p: Pool): Syncer {
    s.(store := s.store.(pools := s.store.pools[q := p]))
  }

  /** Exactness and the committed log depend only on the pools and the
      counters, not on the marker, the handle or the queue. */
  lemma SamePools(a: Syncer, b: Syncer)
    requires a.store.pools == b.store.pools && a.cap == b.cap && a.cur == b.cur && a.next == b.next
    ensures PoolsExact(a) <==> PoolsExact(b)
    ensures Committed(a) == Committed(b)
  {
    assert forall q: nat :: PoolOf(a.store, q) == PoolOf(b.store, q);
    FlatFrame(a.store, b.store, a.cur);
  }

  /** The state a successful append reaches, up to marker, handle and
      queue: the stamped log at the selected slot, the counters past it. */
  function Advanced(s: Syncer, log: Log): Syncer {
    var slot := SelectSlot(s);
    SetPool(s, slot.0, PoolOf(s.store, slot.0) + [log.(seqId := slot.1)]).(cur := slot.0, next := slot.1 + 1)
  }

  /** Appending at the selected slot of an exact state and advancing the
      counters gives an exact state whose committed log has grown by exactly
      that entry. */
  lemma CommitSlot(s: Syncer, log: Log)
    requires PoolsExact(s)
    ensures var slot := SelectSlot(s);
            var p := PoolOf(s.store, slot.0);
            var t := SetPool(s, slot.0, p + [log.(seqId := slot.1)]).(cur := slot.0, next := slot.1 + 1);
            |p| == slot.1 && PoolsExact(t) && Counter(t) == Counter(s) + 1 &&
            Committed(t) == Committed(s) + [log.(seqId := slot.1)]
  {
    var slot := SelectSlot(s);
    var p := PoolOf(s.store, slot.0);
    var stamped := log.(seqId := slot.1);
    var t := SetPool(s, slot.0, p + [stamped]).(cur := slot.0, next := slot.1 + 1);
    if s.cap > 0 && s.next >= s.cap {
      assert p == [];
      forall q: nat | q > t.cur ensures PoolOf(t.store, q) == [] {
        assert PoolOf(t.store, q) == PoolOf(s.store, q);
      }
      forall q: nat | q < t.cur ensures |PoolOf(t.store, q)| == t.cap {
        assert PoolOf(t.store, q) == PoolOf(s.store, q);
      }
      FlatFrame(t.store, s.store, s.cur);
      assert PoolOf(s.store, s.cur)[..s.next] == PoolOf(s.store, s.cur);
      assert Flat(t.store, t.cur) == Flat(s.store, s.cur) + PoolOf(s.store, s.cur);
      assert (slot.0) * s.cap == s.cur * s.cap + s.cap;
    } else {
      assert t.cur == s.cur;
      forall q: nat | q > t.cur ensures PoolOf(t.store, q) == [] {
        assert PoolOf(t.store, q) == PoolOf(s.store, q);
      }
      FlatFrame(t.store, s.store, s.cur);
      assert PoolOf(t.store, t.cur)[..t.next] == p + [stamped];
    }
  }

  /** Gap-free appends: from an exact state without a marker, a successful
      append stores the entry at the slot right after the last counted log
      and the committed log grows by exactly that entry; the marker is gone
      unless AfterLog failed. */
  lemma AppendGapFree(s: Syncer, entry: Result<Log>, f: Faults)
    requires PoolsExact(s) && s.store.marker.None?
    requires Append(s, entry, f).err.None?
    ensures entry.Ok? && !f.readMarker && !f.preLog && !f.append && !f.save
    ensures var t := Append(s, entry, f).state;
            PoolsExact(t) && (!f.afterLog ==> t.store.marker.None?) && Counter(t) == Counter(s) + 1 &&
            Committed(t) == Committed(s) + [entry.value.(seqId := SelectSlot(s).1)]
  {
    assert Append(s, entry, f) == Write(s, entry, f);
    var t := Write(s, entry, f).state;
    CommitSlot(s, entry.value);
    SamePools(t, Advanced(s, entry.value));
  }

  /** The slot numbers the pools stamp are the global sequence numbers
      minus the pool's base. */
  lemma AppendSeq(s: Syncer, entry: Result<Log>, f: Faults)
    requires PoolsExact(s) && s.store.marker.None?
    requires Append(s, entry, f).err.None?
    ensures SlotSeq(s.cap, SelectSlot(s).0, SelectSlot(s).1) == Counter(s)
  {
    SelectSlotIsCounter(s);
  }

  /** Failures from an exact state: a failed read or open, a rejected
      entry, a failed marker write or append changes no pool; a failed
      counter save leaves the log landed with its marker in place. */
  lemma AppendFailure(s: Syncer, entry: Result<Log>, f: Faults)
    requires PoolsExact(s) && s.store.marker.None?
    requires Append(s, entry, f).err.Some?
    ensures var t := Append(s, entry, f).state;
            (t.store.pools == s.store.pools && t.cur == s.cur && t.next == s.next && PoolsExact(t)) ||
            (f.save && Landed(t) && t.store.marker.value.log == entry.value)
  {
    var t := Append(s, entry, f).state;
    if t.store.pools == s.store.pools {
      SamePools(t, s);
    } else {
      assert Append(s, entry, f) == Write(s, entry, f);
      WriteLandsOnSaveFailure(s, entry.value, f);
    }
  }

  /** Recovery (stamp-aware) of an interrupted append counts its log exactly
      once: unless a read, the open or the counter save fails it succeeds,
      the counters move past the log and the pools are exact again. */
  lemma RecoverLanded(s: Syncer, f: Faults)
    requires Landed(s)
    requires !f.readMarker && !f.readLast && !f.recoverSave
    requires !(f.recoverOpen && s.open != Some(s.store.marker.value.pool))
    ensures var r := Recover(s, f, StampAware);
            r.err.None? && PoolsExact(r.state) && (!f.afterLog ==> r.state.store.marker.None?) &&
            Counter(r.state) == Counter(s) + 1 &&
            Committed(r.state) == Committed(Unland(s)) + [s.store.marker.value.log.(seqId := s.store.marker.value.index)]
  {
    var m := s.store.marker.value;
    var r := Recover(s, f, StampAware).state;
    RecoverMatches(s, f);
    var t := SetPool(Unland(s), m.pool, PoolOf(s.store, m.pool)).(cur := m.pool, next := m.index + 1);
    LandedCommits(s);
    SamePools(r, t);
  }

  /** A landed state, with the counters moved past the landed log, is the
      exact state its interrupted append would have reached. */
  lemma LandedCommits(s: Syncer)
    requires Landed(s)
    ensures var m := s.store.marker.value;
            var t := SetPool(Unland(s), m.pool, PoolOf(s.store, m.pool)).(cur := m.pool, next := m.index + 1);
            t.store.pools == s.store.pools && PoolsExact(t) && Counter(t) == Counter(s) + 1 &&
            Committed(t) == Committed(Unland(s)) + [m.log.(seqId := m.index)]
  {
    var m := s.store.marker.value;
    var u := Unland(s);
    CommitSlot(u, m.log);
    var p := PoolOf(s.store, m.pool);
    assert p[..m.index] + [m.log.(seqId := m.index)] == p;
    assert u.store.pools[m.pool := p] == s.store.pools;
  }

  /** Recovery of a landed log finds it as the pool's last entry and moves
      the counters past it, touching no pool. */
  lemma RecoverMatches(s: Syncer, f: Faults)
    requires Landed(s)
    requires !f.readMarker && !f.readLast && !f.recoverSave
    requires !(f.recoverOpen && s.open != Some(s.store.marker.value.pool))
    ensures var r := Recover(s, f, StampAware);
            r.err.None? && r.state.store.pools == s.store.pools &&
            (r.state.cur, r.state.next) == (s.store.marker.value.pool, s.store.marker.value.index + 1) &&
            (!f.afterLog ==> r.state.store.marker.None?)
  {
    var m := s.store.marker.value;
    var p := PoolOf(s.store, m.pool);
    assert GetLastRecordLog(p) == Some((m.index, p[m.index]));
  }

  /** The exact state an interrupted append started from. */
  function Unland(s: Syncer): Syncer
    requires s.store.marker.Some?
  {
    var m := s.store.marker.value;
    var p := PoolOf(s.store, m.pool);
    SetPool(s, m.pool, if m.index <= |p| then p[..m.index] else p)
  }

  /** Recovery from an exact state never touches the counters: a marker
      there, whether its log never landed or a failed AfterLog left it after
      the counters were saved, names no uncounted log. */
  lemma RecoverExact(s: Syncer, f: Faults, mode: Recovery)
    requires PoolsExact(s)
    ensures var r := Recover(s, f, mode);
            r.state.cur == s.cur && r.state.next == s.next && PoolsExact(r.state) &&
            (r.err.None? && !f.afterLog ==> r.state.store.marker.None?)
  {
    var r := Recover(s, f, mode);
    if !f.readMarker && s.store.marker.Some? {
      var m := s.store.marker.value;
      if m.pool == SelectSlot(s).0 {
        var p := PoolOf(s.store, m.pool);
        if |p| > 0 && |p| - 1 == m.index && SameLog(p[|p| - 1], m, mode) {
          // The last entry of the selected pool sits at index next - 1 (the
          // slot's own index is next), so the only way to match is when the
          // marker names the slot before the current one, and then saving
          // leaves the counters where they are.
          assert s.cap > 0 ==> s.next < s.cap;
          assert m.pool == s.cur && m.index + 1 == s.next;
        }
      }
    }
    assert forall q: nat :: PoolOf(r.state.store, q) == PoolOf(s.store, q);
  }

  /** Every append, whatever storage calls fail, keeps the storage layer in
      one of the two states an append can start from. */
  lemma AppendKeepsInv(s: Syncer, entry: Result<Log>, f: Faults)
    requires Inv(s)
    ensures Inv(Append(s, entry, f).state)
  {
    RecoverKeepsInv(s, f);
    var rec := Recover(s, f, StampAware);
    if rec.err.None? {
      WriteKeepsInv(rec.state, entry, f);
    }
  }

  /** The pool being written never moves backwards when the counters
      advance past a slot. */
  lemma SelectSlotMonotone(s: Syncer, t: Syncer)
    requires CountersOk(s) && t.cap == s.cap
    requires (t.cur, t.next) == (SelectSlot(s).0, SelectSlot(s).1 + 1)
    ensures SelectSlot(s).0 <= SelectSlot(t).0
  {}

  /** Opening the selected pool, or failing to, keeps the handles in order. */
  lemma OpenSelectedKeepsHandles(s: Syncer, fails: bool)
    requires HandlesOk(s)
    ensures HandlesOk(OpenPool(s, SelectSlot(s).0, fails))
  {}

  /** Recovery keeps the invariant; when it succeeds the pools are exact,
      and the marker is gone unless AfterLog failed. */
  lemma RecoverKeepsInv(s: Syncer, f: Faults)
    requires Inv(s)
    ensures var r := Recover(s, f, StampAware);
            Inv(r.state) && (r.err.None? ==> PoolsExact(r.state) && (!f.afterLog ==> r.state.store.marker.None?))
  {
    var r := Recover(s, f, StampAware);
    RecoverKeepsHandles(s, f);
    if PoolsExact(s) {
      RecoverExact(s, f, StampAware);
    } else if r.err.Some? {
      assert SelectSlot(r.state) == SelectSlot(s);
    } else {
      RecoverLanded(s, f);
    }
  }

  /** Recovery keeps the open pool and the queued requests in order. */
  lemma RecoverKeepsHandles(s: Syncer, f: Faults)
    requires Inv(s)
    ensures HandlesOk(Recover(s, f, StampAware).state)
  {
    var t := Recover(s, f, StampAware).state;
    if !f.readMarker && s.store.marker.Some? {
      var m := s.store.marker.value;
      if m.pool == SelectSlot(s).0 {
        var u := OpenPool(s, m.pool, f.recoverOpen);
        OpenSelectedKeepsHandles(s, f.recoverOpen);
        assert SelectSlot(u) == SelectSlot(s);
        assert t.open == u.open && t.queue == u.queue;
        assert SelectSlot(u).0 <= SelectSlot(t).0;
        HandlesCarry(u, t);
      } else {
        HandlesCarry(s, t);
      }
    }
  }

  /** The write half keeps the invariant from an exact state, whatever
      marker a failed AfterLog left behind. */
  lemma WriteKeepsInv(s: Syncer, entry: Result<Log>, f: Faults)
    requires HandlesOk(s) && PoolsExact(s)
    ensures Inv(Write(s, entry, f).state)
  {
    var r := Write(s, entry, f);
    var t := r.state;
    if entry.Ok? {
      var u := OpenPool(s, SelectSlot(s).0, f.writeOpen);
      OpenSelectedKeepsHandles(s, f.writeOpen);
      assert SelectSlot(u) == SelectSlot(s);
      if r.err.None? {
        CommitSlot(s, entry.value);
        SamePools(t, Advanced(s, entry.value));
        SelectSlotMonotone(s, t);
      } else if t.store.pools == s.store.pools {
        SamePools(t, s);
        assert SelectSlot(t) == SelectSlot(s);
      } else {
        WriteLandsOnSaveFailure(s, entry.value, f);
        assert SelectSlot(t) == SelectSlot(s);
      }
      HandlesCarry(u, t);
    }
  }

  /** The handles stay in order when the open pool and the queue are kept
      and the selected pool does not move back. */
  lemma HandlesCarry(u: Syncer, t: Syncer)
    requires HandlesOk(u) && t.open == u.open && t.queue == u.queue
    requires SelectSlot(u).0 <= SelectSlot(t).0
    ensures HandlesOk(t)
  {
  }

  /** A failed counter save after a successful append leaves a landed log. */
  lemma WriteLandsOnSaveFailure(s: Syncer, entry: Log, f: Faults)
    requires PoolsExact(s) && !(f.writeOpen && s.open != Some(SelectSlot(s).0))
    requires !f.preLog && !f.append && f.save
    ensures var t := Write(s, Ok(entry), f).state;
            Landed(t) && t.store.marker.value.log == entry && t.cur == s.cur && t.next == s.next
  {
    var slot := SelectSlot(s);
    var p := PoolOf(s.store, slot.0);
    CommitSlot(s, entry);
    var s3 := SetMarker(OpenPool(s, slot.0, f.writeOpen), Some(Marker(entry, slot.0, slot.1)));
    assert AddRecordLog(PoolOf(s3.store, slot.0), slot.1, entry) == Ok(p + [entry.(seqId := slot.1)]);
    assert Write(s, Ok(entry), f).state == SetPool(s3, slot.0, p + [entry.(seqId := slot.1)]);
    LandedAt(s, s3, entry);
  }

  /** Writing the stamped entry into the selected slot of an exact state,
      with the marker naming that slot, leaves a landed log. */
  lemma LandedAt(s: Syncer, u: Syncer, entry: Log)
    requires PoolsExact(s)
    requires u.store.pools == s.store.pools && u.cur == s.cur && u.next == s.next && u.cap == s.cap
    requires u.store.marker == Some(Marker(entry, SelectSlot(s).0, SelectSlot(s).1))
    ensures var slot := SelectSlot(s);
      Landed(SetPool(u, slot.0, PoolOf(s.store, slot.0) + [entry.(seqId := slot.1)]))
  {
    var slot := SelectSlot(s);
    var p := PoolOf(s.store, slot.0);
    var stamped := entry.(seqId := slot.1);
    CommitSlot(s, entry);
    var t := SetPool(u, slot.0, p + [stamped]);
    assert PoolOf(t.store, slot.0) == p + [stamped];
    assert (p + [stamped])[..slot.1] == p;
    var base := t.(store := t.store.(pools := t.store.pools[slot.0 := p]));
    assert forall q: nat :: PoolOf(base.store, q) == PoolOf(s.store, q);
  }

  // ---------------------------------------------------------------------
  // The as-written recovery

  /** With the as-written comparison, an append interrupted after its log
      landed at index 1 or later is never recovered: the pool already holds
      the log under its index while the marker holds it with sequence
      number 0, so recovery drops the marker and leaves the counters one
      short of the pool. */
  lemma AsWrittenDropsLandedLog(s: Syncer)
    requires Landed(s)
    requires s.store.marker.value.index > 0 && s.store.marker.value.log.seqId == 0
    ensures var r := Recover(s, NoFaults, AsWritten);
            r.err.None? && r.state.store.marker.None? &&
            r.state.cur == s.cur && r.state.next == s.next && !PoolsExact(r.state)
  {
    var m := s.store.marker.value;
    var r := Recover(s, NoFaults, AsWritten).state;
    assert PoolOf(r.store, m.pool) == PoolOf(s.store, m.pool);
    assert m.pool == s.cur;
  }

  /** ...after which the next append fails, whatever faults it meets, and
      leaves the pools and the counters as they were: the slot the counters
      select is already taken in the pool. */
  lemma AsWrittenWedged(s: Syncer, entry: Log, f: Faults)
    requires Landed(s)
    requires s.store.marker.value.index > 0 && s.store.marker.value.log.seqId == 0
    ensures var t := Recover(s, NoFaults, AsWritten).state;
            var r := AppendAsWritten(t, Ok(entry), f);
            r.err.Some? && r.state.store.pools == t.store.pools &&
            r.state.cur == t.cur && r.state.next == t.next
  {
    AsWrittenDropsLandedLog(s);
    var m := s.store.marker.value;
    var t := Recover(s, NoFaults, AsWritten).state;
    assert m.pool == s.cur;
    assert PoolOf(t.store, SelectSlot(t).0) == PoolOf(s.store, m.pool);
  }
}
