/** The syncer's catch-up query: split a cursor into pool and offset, read
    every later log from the pools (giving each its global sequence number),
    and for a client starting from scratch substitute the snapshot of the
    pool before the last one for everything older. */
module SyncRead {
  import opened Wrappers
  import opened SyncModel
  import opened LogPool
  import opened Numeral
  import opened Syncer
  import SeqId

  /** The logs with their global sequence numbers: entry i gets base + i. */
  function Restamp(logs: seq<Log>, base: nat): (r: seq<Log>)
    ensures |r| == |logs|
    ensures forall i :: 0 <= i < |r| ==> r[i] == logs[i].(seqId := base + i)
  {
    seq(|logs|, i requires 0 <= i < |logs| => logs[i].(seqId := base + i))
  }

  lemma RestampConcat(a: seq<Log>, b: seq<Log>, base: nat)
    ensures Restamp(a + b, base) == Restamp(a, base) + Restamp(b, base + |a|)
  {
    var l := Restamp(a + b, base);
    var r := Restamp(a, base) + Restamp(b, base + |a|);
    forall i | 0 <= i < |l| ensures l[i] == r[i] {
      if i >= |a| { assert (a + b)[i] == b[i - |a|]; }
    }
  }

  lemma RestampSuffix(a: seq<Log>, base: nat, k: nat)
    requires k <= |a|
    ensures Restamp(a, base)[k..] == Restamp(a[k..], base + k)
  {}

  /** Where a global sequence number lives: (pool, offset); without pooling
      everything is in pool 0. */
  function StartOf(cap: nat, n: nat): (r: (nat, nat))
    ensures cap > 0 ==> r.1 < cap
    ensures r.0 * cap + r.1 == n
  {
    if cap > 0 then (n / cap, n % cap) else (0, n)
  }

  /** The split is a bijection between sequence numbers and in-range slots. */
  lemma StartOfInverse(cap: nat, pool: nat, index: nat)
    requires cap > 0 && index < cap
    ensures StartOf(cap, SlotSeq(cap, pool, index)) == (pool, index)
  {
    var r := StartOf(cap, pool * cap + index);
    if r.0 < pool {
      MulGap(r.0, pool, cap);
    } else if r.0 > pool {
      MulGap(pool, r.0, cap);
    }
  }

  /** Consecutive multiples of `c` are `c` apart. */
  lemma {:induction false} MulGap(x: nat, y: nat, c: nat)
    requires x < y
    ensures x * c + c <= y * c
    decreases y
  {
    assert y * c == (y - 1) * c + c;
    if x < y - 1 {
      MulGap(x, y - 1, c);
    }
  }

  /** GetLastSnapshotData: the snapshot of the pool before `pool`; nothing
      for the first pool. */
  function LastSnapshot(st: Store, pool: nat): (d: Option<SnapshotData>)
    ensures pool == 0 ==> d.None?
    ensures pool > 0 ==> (d.Some? <==> pool - 1 in st.snapshots)
    ensures d.Some? ==> d.value == st.snapshots[pool - 1]
  {
    if pool == 0 || pool - 1 !in st.snapshots then None else Some(st.snapshots[pool - 1])
  }

  /** The raw logs of one pool from `index` on, with global numbers. */
  function ReadPool(st: Store, cap: nat, pool: nat, index: nat): seq<Log> {
    Restamp(GetRecordLogs(PoolOf(st, pool), index, 0), pool * cap + index)
  }

  /** The read loop: pool `pool` from `index`, then every later pool up to
      and including `last` from its start. */
  function ReadFrom(st: Store, cap: nat, pool: nat, last: nat, index: nat): seq<Log>
    decreases if pool < last then last - pool else 0
  {
    if pool < last then ReadPool(st, cap, pool, index) + ReadFrom(st, cap, pool + 1, last, 0)
    else ReadPool(st, cap, pool, index)
  }

  /** The pool holding the last counted log (the pool about to be written,
      or the one before it when the next slot opens a fresh pool). */
  function LastPool(s: Syncer): nat {
    var slot := SelectSlot(s);
    if slot.1 == 0 && slot.0 > 0 then slot.0 - 1 else slot.0
  }

  /** The synthetic entry that stands for everything up to the end of the
      pool before the last one. */
  function SnapshotLog(seqId: nat, d: SnapshotData): Log {
    Log(seqId, Snapshot, "", [], "", "", "", None, Some(d))
  }

  /** The cursor after which reading starts: 0 for the empty cursor,
      otherwise one past the parsed number, wrapping at 2^64 as the
      source's uint64 increment does. */
  function StartSeq(cursor: string): (r: Result<nat>)
    ensures cursor == "" ==> r == Ok(0)
    ensures cursor != "" ==> (r.Err? <==> SeqId.S2N(cursor).Err?)
    ensures r.Err? ==> r == Err(SeqId.S2N(cursor).code)
    ensures r.Ok? ==> r.value <= MaxUint64
  {
    if cursor == "" then Ok(0)
    else match SeqId.S2N(cursor)
      case Err(e) => Err(e)
      case Ok(v) => Ok((v + 1) % (MaxUint64 + 1))
  }

  /** GetAllLogs when every storage call succeeds: only the cursor can be
      refused. `ReadLogs` adds the storage failures. */
  function GetAllLogs(s: Syncer, cursor: string): (r: Result<seq<Log>>)
    ensures r.Err? <==> StartSeq(cursor).Err?
    ensures SelectSlot(s) == (0, 0) && StartSeq(cursor).Ok? ==> r == Ok([])
  {
    match StartSeq(cursor)
    case Err(e) => Err(e)
    case Ok(n) =>
      var start := StartOf(s.cap, n);
      var slot := SelectSlot(s);
      if slot == (0, 0) then Ok([])
      else
        var lp := LastPool(s);
        var snap := LastSnapshot(s.store, lp);
        if n == 0 && lp > 0 && snap.Some? then
          Ok([SnapshotLog(lp * s.cap - 1, snap.value)] + ReadFrom(s.store, s.cap, lp, lp, 0))
        else Ok(ReadFrom(s.store, s.cap, start.0, lp, start.1))
  }

  // ---------------------------------------------------------------------
  // The committed log as pools

  /** Flattening fewer pools gives a prefix. */
  lemma {:induction false} FlatPrefix(st: Store, m: nat, n: nat)
    requires m <= n
    ensures |Flat(st, m)| <= |Flat(st, n)| && Flat(st, n)[..|Flat(st, m)|] == Flat(st, m)
    decreases n
  {
    if m < n {
      FlatPrefix(st, m, n - 1);
      var a := Flat(st, n - 1);
      assert Flat(st, n) == a + PoolOf(st, n - 1);
      assert Flat(st, n)[..|a|] == a;
    }
  }

  /** With full pools before it, flattening puts pool q at q * cap. */
  lemma {:induction false} FlatFull(st: Store, cap: nat, n: nat)
    requires forall q: nat :: q < n ==> |PoolOf(st, q)| == cap
    ensures |Flat(st, n)| == n * cap
    decreases n
  {
    if n > 0 { FlatFull(st, cap, n - 1); }
  }

  /** Shape of the pools around the last counted log. */
  lemma LastPoolShape(s: Syncer)
    requires PoolsExact(s) && SelectSlot(s) != (0, 0)
    ensures Committed(s) == Flat(s.store, LastPool(s) + 1)
    ensures forall q: nat :: q < LastPool(s) ==> |PoolOf(s.store, q)| == s.cap
    ensures forall q: nat :: q > LastPool(s) ==> PoolOf(s.store, q) == []
    ensures s.cap > 0 ==> |PoolOf(s.store, LastPool(s))| <= s.cap
    ensures LastPool(s) * s.cap + |PoolOf(s.store, LastPool(s))| == Counter(s)
  {
    var lp := LastPool(s);
    var p := PoolOf(s.store, s.cur);
    assert p[..s.next] == p;
    FlatLength(s, s.cur);
    if s.cap > 0 && s.next == 0 {
      assert lp + 1 == s.cur;
      assert Flat(s.store, s.cur) == Flat(s.store, lp) + PoolOf(s.store, lp);
      FlatFull(s.store, s.cap, lp);
      assert (lp + 1) * s.cap == lp * s.cap + s.cap;
    } else {
      assert lp == s.cur;
    }
  }

  /** One pool's read is the matching slice of the numbered flat log. */
  lemma ReadPoolSlice(st: Store, cap: nat, pool: nat, index: nat, all: seq<Log>)
    requires |Flat(st, pool)| == pool * cap && index <= |PoolOf(st, pool)|
    requires pool * cap + |PoolOf(st, pool)| <= |all|
    requires all[..pool * cap + |PoolOf(st, pool)|] == Flat(st, pool) + PoolOf(st, pool)
    ensures ReadPool(st, cap, pool, index) == Restamp(all, 0)[pool * cap + index..pool * cap + |PoolOf(st, pool)|]
  {
    var p := PoolOf(st, pool);
    var k := pool * cap;
    GetRecordLogsSuffix(p, index);
    var l := ReadPool(st, cap, pool, index);
    var r := Restamp(all, 0)[k + index..k + |p|];
    forall i | 0 <= i < |l| ensures l[i] == r[i] {
      assert all[k + index + i] == all[..k + |p|][k + index + i] == p[index + i];
    }
  }

  /** Reading from (pool, index) up to the last pool yields the flattened
      pools from that slot on, each entry carrying its global number. */
  lemma {:induction false} ReadFromFlat(st: Store, cap: nat, pool: nat, last: nat, index: nat)
    requires pool <= last
    requires forall q: nat :: q < last ==> |PoolOf(st, q)| == cap
    requires index <= |PoolOf(st, pool)|
    ensures pool * cap + index <= |Flat(st, last + 1)|
    ensures ReadFrom(st, cap, pool, last, index) == Restamp(Flat(st, last + 1), 0)[pool * cap + index..]
    decreases last - pool
  {
    var all := Flat(st, last + 1);
    var p := PoolOf(st, pool);
    var k := pool * cap;
    FlatFull(st, cap, pool);
    FlatPrefix(st, pool + 1, last + 1);
    assert Flat(st, pool + 1) == Flat(st, pool) + p;
    ReadPoolSlice(st, cap, pool, index, all);
    var r := Restamp(all, 0);
    if pool < last {
      ReadFromFlat(st, cap, pool + 1, last, 0);
      ReadFromStep(st, cap, pool, last, index, r);
    } else {
      assert |all| == k + |p|;
      assert r[k + index..k + |p|] == r[k + index..];
    }
  }

  /** One pool's slice followed by the rest of the read. */
  lemma ReadFromStep(st: Store, cap: nat, pool: nat, last: nat, index: nat, r: seq<Log>)
    requires pool < last && |PoolOf(st, pool)| == cap && index <= cap
    requires (pool + 1) * cap + 0 <= |r|
    requires pool * cap + index <= pool * cap + |PoolOf(st, pool)| <= |r|
    requires ReadPool(st, cap, pool, index) == r[pool * cap + index..pool * cap + |PoolOf(st, pool)|]
    requires ReadFrom(st, cap, pool + 1, last, 0) == r[(pool + 1) * cap + 0..]
    ensures ReadFrom(st, cap, pool, last, index) == r[pool * cap + index..]
  {
    var k := pool * cap;
    NextMultiple(pool, cap);
    calc {
      ReadFrom(st, cap, pool, last, index);
      ReadPool(st, cap, pool, index) + ReadFrom(st, cap, pool + 1, last, 0);
      r[k + index..k + cap] + r[k + cap..];
      { SliceSplit(r, k + index, k + cap); }
      r[k + index..];
    }
  }

  lemma NextMultiple(x: nat, c: nat)
    ensures (x + 1) * c == x * c + c
  {
  }

  lemma SliceSplit(r: seq<Log>, a: nat, b: nat)
    requires a <= b <= |r|
    ensures r[a..] == r[a..b] + r[b..]
  {
  }

  /** Past the last counted log the read finds nothing. */
  lemma ReadPastEnd(s: Syncer, n: nat)
    requires PoolsExact(s) && SelectSlot(s) != (0, 0)
    requires n >= Counter(s)
    ensures ReadFrom(s.store, s.cap, StartOf(s.cap, n).0, LastPool(s), StartOf(s.cap, n).1) == []
  {
    LastPoolShape(s);
    var start := StartOf(s.cap, n);
    var lp := LastPool(s);
    var p := PoolOf(s.store, start.0);
    if s.cap == 0 {
      assert lp == 0 && start == (0, n);
    } else if start.0 < lp {
      MulGap(start.0, lp, s.cap);
      assert false;
    }
    assert start.0 >= lp;
    assert start.0 == lp ==> start.1 >= |p|;
    assert start.0 > lp ==> p == [];
    GetRecordLogsSuffix(p, start.1);
    assert GetRecordLogs(p, start.1, 0) == [];
  }

  // ---------------------------------------------------------------------
  // What a client sees

  /** Reading from any committed position gives the numbered committed
      log from there on. */
  lemma ReadFromStart(s: Syncer, m: nat)
    requires PoolsExact(s) && SelectSlot(s) != (0, 0) && m <= Counter(s)
    ensures m <= |Committed(s)|
    ensures ReadFrom(s.store, s.cap, StartOf(s.cap, m).0, LastPool(s), StartOf(s.cap, m).1) ==
            Restamp(Committed(s), 0)[m..]
  {
    CommittedLength(s);
    var start := StartOf(s.cap, m);
    var lp := LastPool(s);
    LastPoolShape(s);
    if start.0 > lp {
      // Only the position right after a full last pool lies beyond it.
      MulGap(lp, start.0, s.cap);
      assert m == Counter(s);
      assert PoolOf(s.store, start.0) == [];
    } else {
      if start.0 == lp {
        assert start.1 <= |PoolOf(s.store, lp)|;
      }
      ReadFromFlat(s.store, s.cap, start.0, lp, start.1);
    }
  }

  /** A client holding cursor n receives exactly the committed logs after
      sequence number n, each stamped with its own global number. */
  lemma ResumeAfterCursor(s: Syncer, n: nat)
    requires PoolsExact(s) && n < MaxUint64
    ensures |Committed(s)| == Counter(s)
    ensures n + 1 <= Counter(s) ==>
      GetAllLogs(s, SeqId.N2S(n)) == Ok(Restamp(Committed(s), 0)[n + 1..])
    ensures n + 1 >= Counter(s) ==> GetAllLogs(s, SeqId.N2S(n)) == Ok([])
  {
    SeqId.RoundTrip(n);
    var cursor := SeqId.N2S(n);
    assert StartSeq(cursor) == Ok(n + 1);
    CommittedLength(s);
    if SelectSlot(s) != (0, 0) {
      if n + 1 <= Counter(s) {
        ReadFromStart(s, n + 1);
      }
      if n + 1 >= Counter(s) {
        ReadPastEnd(s, n + 1);
      }
    }
  }

  /** A client starting from scratch gets everything committed, unless the
      pool before the last one has a snapshot: then it gets that snapshot
      (numbered just before the last pool's first slot) followed only by the
      last pool's logs. */
  lemma ReadFromScratch(s: Syncer)
    requires PoolsExact(s) && Counter(s) > 0
    ensures |Committed(s)| == Counter(s)
    ensures var lp := LastPool(s);
            var snap := LastSnapshot(s.store, lp);
            (lp > 0 && snap.Some? ==>
               s.cap > 0 && lp * s.cap <= Counter(s) &&
               GetAllLogs(s, "") == Ok([SnapshotLog(lp * s.cap - 1, snap.value)] +
                                       Restamp(Committed(s), 0)[lp * s.cap..])) &&
            (!(lp > 0 && snap.Some?) ==> GetAllLogs(s, "") == Ok(Restamp(Committed(s), 0)))
  {
    CommittedLength(s);
    assert SelectSlot(s) != (0, 0);
    LastPoolShape(s);
    var lp := LastPool(s);
    assert StartSeq("") == Ok(0) && StartOf(s.cap, 0) == (0, 0);
    if lp > 0 && LastSnapshot(s.store, lp).Some? {
      ReadFromFlat(s.store, s.cap, lp, lp, 0);
      assert GetAllLogs(s, "") == Ok([SnapshotLog(lp * s.cap - 1, LastSnapshot(s.store, lp).value)] +
                                     ReadFrom(s.store, s.cap, lp, lp, 0));
    } else {
      ReadFromFlat(s.store, s.cap, 0, lp, 0);
      assert GetAllLogs(s, "") == Ok(ReadFrom(s.store, s.cap, 0, lp, 0));
    }
  }

  /** Before the first append there is nothing to read, whatever the
      (valid) cursor. */
  lemma NothingBeforeFirstAppend(s: Syncer, cursor: string)
    requires PoolsExact(s) && Counter(s) == 0 && StartSeq(cursor).Ok?
    ensures GetAllLogs(s, cursor) == Ok([])
  {
    if s.cap > 0 && s.cur > 0 {
      MulGap(0, s.cur, s.cap);
      assert false;
    }
    assert SelectSlot(s) == (0, 0);
  }

  /** The cursor of the largest uint64 wraps round to the empty cursor. */
  lemma LastCursorWraps(s: Syncer)
    ensures GetAllLogs(s, SeqId.N2S(MaxUint64)) == GetAllLogs(s, "")
  {
    SeqId.RoundTrip(MaxUint64);
    assert StartSeq(SeqId.N2S(MaxUint64)) == Ok(0);
  }

  /** A cursor that does not parse is an error. */
  lemma BadCursor(s: Syncer, cursor: string)
    requires cursor != "" && SeqId.S2N(cursor).Err?
    ensures GetAllLogs(s, cursor) == Err(SeqId.S2N(cursor).code)
  {}

  // ---------------------------------------------------------------------
  // Storage failures while reading

  /** Which storage call of GetAllLogs fails. Opening a pool and reading it
      fail alike, so one position stands for both. */
  datatype ReadFault =
    | NoReadFault
    | SnapshotFails      // GetLastSnapshotData
    | MarshalFails       // json.Marshal of the snapshot
    | PoolFails(pool: nat)  // NewLogPool or GetRecordLogs of this pool

  /** Whether the read starts from scratch: the empty cursor past pool 0. */
  predicate Scratch(s: Syncer, n: nat) {
    n == 0 && LastPool(s) > 0
  }

  /** The snapshot that stands in for the older pools, if any. */
  function StandIn(s: Syncer, n: nat): Option<SnapshotData> {
    if Scratch(s, n) then LastSnapshot(s.store, LastPool(s)) else None
  }

  /** The pool and index the pool reads start at. */
  function FirstRead(s: Syncer, n: nat): (nat, nat) {
    if StandIn(s, n).Some? then (LastPool(s), 0) else StartOf(s.cap, n)
  }

  /** The pool of the read after the loop: the last pool, or the first one
      when the start lies beyond it. */
  function FinalPool(s: Syncer, n: nat): nat {
    var first := FirstRead(s, n).0;
    if first < LastPool(s) then LastPool(s) else first
  }

  /** The logs before the pool reads: the snapshot entry, if one stands in. */
  function Head(s: Syncer, n: nat): seq<Log> {
    match StandIn(s, n)
    case None => []
    case Some(d) => [SnapshotLog(LastPool(s) * s.cap - 1, d)]
  }

  /** Whether the failing call is one whose error GetAllLogs returns: the
      snapshot read, the marshalling, or the read of the final pool. */
  predicate Fails(s: Syncer, n: nat, fault: ReadFault) {
    SelectSlot(s) != (0, 0) &&
    match fault
    case NoReadFault => false
    case SnapshotFails => Scratch(s, n)
    case MarshalFails => StandIn(s, n).Some?
    case PoolFails(q) => q == FinalPool(s, n)
  }

  /** Whether the failing call is a pool read inside the loop, whose error
      the loop keeps in its own variable and does not return. */
  predicate Cuts(s: Syncer, n: nat, fault: ReadFault) {
    SelectSlot(s) != (0, 0) && fault.PoolFails? && FirstRead(s, n).0 <= fault.pool < LastPool(s)
  }

  /** The logs GetAllLogs holds when the loop stops at pool `q`. */
  function Gathered(s: Syncer, n: nat, q: nat): seq<Log>
    requires FirstRead(s, n).0 <= q
  {
    var first := FirstRead(s, n);
    Head(s, n) + (if q == first.0 then [] else ReadFrom(s.store, s.cap, first.0, q - 1, first.1))
  }

  /** GetAllLogs with the storage call `fault` names failing. A failed
      snapshot read, marshalling or final pool read is an I/O error; a pool
      read that fails inside the loop ends the read without an error, with
      the logs gathered so far, which are a prefix of the full answer. */
  function ReadLogs(s: Syncer, cursor: string, fault: ReadFault): (r: Result<seq<Log>>)
    ensures r.Err? <==> StartSeq(cursor).Err? || Fails(s, StartSeq(cursor).value, fault)
    ensures StartSeq(cursor).Ok? && Fails(s, StartSeq(cursor).value, fault) ==> r == Err(Io)
    ensures r.Ok? ==> GetAllLogs(s, cursor).Ok? &&
                      |r.value| <= |GetAllLogs(s, cursor).value| &&
                      r.value == GetAllLogs(s, cursor).value[..|r.value|]
    ensures r.Ok? && !Cuts(s, StartSeq(cursor).value, fault) ==> r == GetAllLogs(s, cursor)
    ensures fault == NoReadFault ==> r == GetAllLogs(s, cursor)
  {
    match StartSeq(cursor)
    case Err(e) => Err(e)
    case Ok(n) =>
      if SelectSlot(s) == (0, 0) then Ok([])
      else if Fails(s, n, fault) then Err(Io)
      else if Cuts(s, n, fault) then
        GatheredPrefix(s, cursor, fault.pool);
        Ok(Gathered(s, n, fault.pool))
      else
        var pools := ReadFrom(s.store, s.cap, FirstRead(s, n).0, LastPool(s), FirstRead(s, n).1);
        assert StandIn(s, n).None? ==> Head(s, n) + pools == pools;
        Ok(Head(s, n) + pools)
  }

  /** Reading pools `pool` to `last` is reading them up to `mid - 1`, then
      from `mid` on. */
  lemma {:induction false} ReadFromSplit(st: Store, cap: nat, pool: nat, mid: nat, last: nat, index: nat)
    requires pool < mid <= last
    ensures ReadFrom(st, cap, pool, last, index) == ReadFrom(st, cap, pool, mid - 1, index) + ReadFrom(st, cap, mid, last, 0)
    decreases mid - pool
  {
    if pool + 1 < mid {
      ReadFromSplit(st, cap, pool + 1, mid, last, 0);
    }
  }

  /** When the loop stops at pool `q`, the logs gathered are the full
      answer cut just before pool q's logs. */
  lemma GatheredPrefix(s: Syncer, cursor: string, q: nat)
    requires StartSeq(cursor).Ok? && SelectSlot(s) != (0, 0)
    requires FirstRead(s, StartSeq(cursor).value).0 <= q < LastPool(s)
    ensures var n := StartSeq(cursor).value;
            var first := FirstRead(s, n);
            var full := GetAllLogs(s, cursor).value;
            var got := Gathered(s, n, q);
            GetAllLogs(s, cursor).Ok? &&
            full == got + (ReadPool(s.store, s.cap, q, if q == first.0 then first.1 else 0) +
                           ReadFrom(s.store, s.cap, q + 1, LastPool(s), 0)) &&
            |got| <= |full| && full[..|got|] == got
  {
    var n := StartSeq(cursor).value;
    var first := FirstRead(s, n);
    var lp := LastPool(s);
    var head := Head(s, n);
    var idx := if q == first.0 then first.1 else 0;
    var tail := ReadPool(s.store, s.cap, q, idx) + ReadFrom(s.store, s.cap, q + 1, lp, 0);
    FullRead(s, cursor);
    if q == first.0 {
      assert ReadFrom(s.store, s.cap, q, lp, idx) == tail;
      assert Gathered(s, n, q) == head + [];
      ConcatPrefix(head, [], tail);
    } else {
      ReadFromSplit(s.store, s.cap, first.0, q, lp, first.1);
      assert ReadFrom(s.store, s.cap, q, lp, 0) == tail;
      ConcatPrefix(head, ReadFrom(s.store, s.cap, first.0, q - 1, first.1), tail);
    }
  }

  /** The full answer, once the cursor parses and something was counted:
      the snapshot entry, if one stands in, then the pool reads. */
  lemma FullRead(s: Syncer, cursor: string)
    requires StartSeq(cursor).Ok? && SelectSlot(s) != (0, 0)
    ensures var n := StartSeq(cursor).value;
            GetAllLogs(s, cursor) ==
              Ok(Head(s, n) + ReadFrom(s.store, s.cap, FirstRead(s, n).0, LastPool(s), FirstRead(s, n).1))
  {
    var n := StartSeq(cursor).value;
    var pools := ReadFrom(s.store, s.cap, FirstRead(s, n).0, LastPool(s), FirstRead(s, n).1);
    assert StandIn(s, n).None? ==> Head(s, n) + pools == pools;
  }

  /** Regrouping three pieces keeps the first two as a prefix. */
  lemma ConcatPrefix<T>(a: seq<T>, b: seq<T>, c: seq<T>)
    ensures a + (b + c) == (a + b) + c
    ensures |a + b| <= |a + (b + c)| && (a + (b + c))[..|a + b|] == a + b
  {
    assert (a + b + c)[..|a + b|] == a + b;
  }

  /** A pool read failing inside the loop loses, silently, at least that
      pool's logs and everything after them. */
  lemma LoopFailureTruncates(s: Syncer, cursor: string, q: nat)
    requires StartSeq(cursor).Ok? && SelectSlot(s) != (0, 0)
    requires FirstRead(s, StartSeq(cursor).value).0 <= q < LastPool(s)
    ensures var r := ReadLogs(s, cursor, PoolFails(q));
            var first := FirstRead(s, StartSeq(cursor).value);
            r.Ok? &&
            |r.value| + |ReadPool(s.store, s.cap, q, if q == first.0 then first.1 else 0)| +
              |ReadFrom(s.store, s.cap, q + 1, LastPool(s), 0)| == |GetAllLogs(s, cursor).value|
  {
    GatheredPrefix(s, cursor, q);
  }
}
