# libcomponents in Dafny

A Dafny model of the logic at the centre of `libcomponents`, a Go library of small back-end building blocks. Every component is stated over immutable values: storage becomes maps and sequences, and each operation is a pure function (or a short method with a loop) that returns the new state together with an error code. The model covers:

- **The sync log engine** (`syncer/`). The orchestrator hands out slots `pool * capacity + index` and appends a log through a crash marker; the log pool is append-only; recovery decides what a leftover marker means; `GetAllLogs` answers catch-up queries, optionally starting from a pool snapshot. Also modelled:
  - the base-36 sequence-id codec;
  - the snapshot builder's replay through the versioned record reducer, its record cache and the plugin registry;
  - the two type-table plugin caches;
  - the reconciling test client, with a proof that clients replaying one stream converge.
- **The hierarchical type table** (`syncer/impls/bookkeeping/typetable.go`). This covers the two-level parent/child rules, soft deletion by transfer, the derived set of valid parents, and the `Test*` predictors.
- **Quota ledgers** (`trafficpackage/`). This covers greedy multi-package consumption, validate-all-then-apply storage writes, the daily bonus with its date rollover, and operator chaining.
- **The wallet and locker ledger** (`wallet/`). The Lua scripts are modelled as transformations of redis hashes and lists that keep each locker's `total` field equal to the sum of its other fields. Also covered are history paging and draining, the newline codec of history items, and the option flags.
- **Time buckets.** This covers the calendar keys and the year/season/month/week/day aggregation tree (`statistic/memdate`), status-interval accounting (`usage/time.go`), integer averaging (`curve/common.go`) and hashrate key classification (`curve/curve-hashrate/system.go`).
- **The file-backed account store** (`account/impls/fmaccountstorage/storage.go`). This covers the name index, renaming, and the token table with its expiry clean.

Integers are unbounded. Where the Go code's 64-bit width matters, it is written out:
- the uint64 range of sequence ids;
- the wrap of the largest cursor in `GetAllLogs`;
- the int64 range of the parsed history fields.

Go's random map iteration order is taken as an arbitrary sequence of the keys. The clock and snowflake ids are parameters. A storage failure is a fault parameter saying which call fails: any call of the syncer's append and recovery, of the snapshot build and of `GetAllLogs`, and one failing position in the wallet history drain and in the traffic-package consumption loop. Where the model injects fewer failures than the code can meet, "Left out" says so.

Where the code does something its authors evidently did not intend, the model keeps the code as written in a member named `…AsWritten`, exhibits the input that shows the difference, and proves the intended property of a corrected member. The rest of the model builds on the corrected member. These cases are listed under Findings.

## Model

| member | source | states |
|---|---|---|
| SeqId.N2S | syncer/id.go:5-7 | a sequence number's cursor is a non-empty lower-case base-36 numeral, starting with '0' only for zero (no leading zeros) |
| SeqId.S2N | syncer/id.go:9-11 | a cursor reads back to a number within uint64; the empty cursor is a syntax error; every failure is a syntax or range error |
| SeqId.RoundTrip | syncer/id.go:5-11 | every uint64 sequence number survives N2S then S2N |
| SeqId.N2SInjective | syncer/id.go:5-7 | two sequence numbers have the same cursor exactly when they are equal |
| SeqId.RejectsNonDigit | syncer/id.go:9-11 | any character that is not a base-36 digit makes the cursor invalid |
| SeqId.RejectsSign | syncer/id.go:9-11 | ParseUint accepts no sign: a leading '+' or '-' is an error |
| SeqId.AcceptsUpperCase | syncer/id.go:9-11 | upper-case digits are accepted and read like lower-case ones |
| SeqId.AcceptsLeadingZeros | syncer/id.go:9-11 | leading zeros are accepted on input although N2S never writes them |
| SeqId.RejectsOverflow | syncer/id.go:9-11 | a numeral of a number just past uint64 is a range error, not a wrapped value |
| Numeral.DigitValue | syncer/id.go:10 | a character is a digit exactly when it is 0-9, a-z or A-Z, and its value is below 36 |
| Numeral.DigitRoundTrip | syncer/id.go:5-11 | the digit written for a value reads back as that value |
| Numeral.FormatUintCanonical | syncer/id.go:6 | FormatUint writes lower-case digits only, with a leading '0' exactly for zero |
| Numeral.ParseFormatUint | syncer/id.go:5-11 | ParseUint in any base 2..36 reads back what FormatUint wrote, for every uint64 |
| Numeral.FormatInt | wallet/codec.go:20 | the decimal numeral of an integer starts with '-' exactly when it is negative |
| Numeral.ParseInt | wallet/codec.go:31 | a parsed decimal lies within int64; a failure is a syntax or range error |
| Numeral.ParseFormatInt | wallet/codec.go:20-45 | every int64 survives formatting with %d and strconv.ParseInt |
| Numeral.FormatIntNoNewline | wallet/codec.go:20 | a formatted decimal never contains a line break, so it always stays one field of a history line |
| SyncModel.AddLog | syncer/syncer.go:232-241 | an add entry carries the record id, its data and the fresh version id, and no plugin id or sequence number yet |
| SyncModel.DelLog | syncer/syncer.go:243-251 | a delete entry carries the record id and the version being deleted |
| SyncModel.ChangeLog | syncer/syncer.go:253-263 | a change entry carries the record id, the version it replaces, the new data and the fresh version id |
| LogPool.AddRecordLog | syncer/impls/mf/logpool.go:44-64 | an append succeeds exactly at index len(pool), otherwise CodeErrLogic; on success the pool grows by one, keeps its prefix, and the new entry is the log stamped with SeqID = index |
| LogPool.AddKeepsStamped | syncer/impls/mf/logpool.go:52-60 | a pool whose entries each carry their own index as SeqID stays so after an append |
| LogPool.GetRecordLogs | syncer/impls/mf/logpool.go:97-116 | a read never returns more entries than the pool holds |
| LogPool.GetRecordLogsSuffix | syncer/impls/mf/logpool.go:97-116 | a read with end 0 returns the pool from start to its end, or nothing when start is past the end |
| LogPool.GetRecordLogsWindow | syncer/impls/mf/logpool.go:104-112 | a read with end inside the pool returns the entries start..end, or nothing when end is before start |
| LogPool.GetRecordLog | syncer/impls/mf/logpool.go:66-80 | the entry at the index exists exactly when the index is below the pool length, and it is that entry |
| LogPool.GetLastRecordLog | syncer/impls/mf/logpool.go:82-95 | a non-empty pool reports its last index and entry; an empty pool reports nothing |
| LogPool.LastAfterAdd | syncer/impls/mf/logpool.go:44-95 | right after an append the last entry is the appended log, stamped, at the index it was appended under |
| Syncer.Restart | syncer/syncer.go:65-81 | init reads both counters back from the key-value store, opens the current pool, and starts with no pending snapshot requests |
| Syncer.SelectSlotIsCounter | syncer/syncer.go:90-100 | the slot chosen for the next log has global number pool*count+index equal to the number of logs already counted, and lies inside a pool |
| Syncer.SelectSlotMonotone | syncer/syncer.go:90-100 | after a log lands in the chosen slot, the next chosen pool is never an earlier one |
| Syncer.TrySnapshot | syncer/snapshot.go:11-22 | a snapshot request for a pool is queued only when pooling is on and the channel of capacity 10 has room; otherwise it is dropped; the queue never exceeds the capacity |
| Syncer.OpenPool | syncer/syncer.go:114-131 | reopening the open pool changes nothing; switching away from an open pool queues a snapshot request for it; without a handle nothing is queued; a failed open leaves no handle, so the next open requests no snapshot |
| Syncer.AfterLog | syncer/syncer.go:145 | AfterLog clears the marker, or on failure leaves it, and touches nothing else |
| Syncer.OpenSelectedKeepsHandles | syncer/syncer.go:114-131 | opening the selected pool, or failing to, keeps the open pool and every queued request at or before the pool being written |
| Syncer.Recover | syncer/syncer.go:133-183 | a failed marker read (line 134) changes nothing; without a marker nothing happens; a failed pool open (150), last-entry read (156) or counter save (174) is an I/O error with the store and counters untouched; on success the marker is cleared unless AfterLog failed (145, 162, 168, 180), when it stays as it was; pools and snapshots are never changed |
| Syncer.RecoverLanded | syncer/syncer.go:133-183 | after a crash between the pool append and the counter save, recovery that compares the stamped log succeeds unless a read, the open or the counter save fails, and counts that log exactly once: the pools become exact and the committed log gains it at its slot |
| Syncer.RecoverMatches | syncer/syncer.go:156-180 | recovery of a landed log finds it as the pool's last entry under the marker's index and moves the counters to just past it, touching no pool |
| Syncer.RecoverExact | syncer/syncer.go:133-183 | from a state whose pools match the counters, whatever marker it holds (including one a failed AfterLog left after the counters were saved), recovery never moves the counters and keeps the pools exact |
| Syncer.RecoverKeepsInv | syncer/syncer.go:133-183 | recovery, whatever storage call fails, keeps the storage invariant (pools exact or exactly one landed log), and when it succeeds the pools are exact and the marker is gone unless AfterLog failed |
| Syncer.RecoverKeepsHandles | syncer/syncer.go:114-183 | recovery keeps the open pool and every queued request at or before the pool being written |
| Syncer.TryNewLog | syncer/syncer.go:185-226 | an append never touches the stored snapshots nor the snapshot log count |
| Syncer.Write | syncer/syncer.go:194-226 | a failing entry callback is returned as is with nothing changed; a failed pool open (201) or marker write changes nothing in the store; the write succeeds exactly when no call fails and the slot is free, and then the stamped log is at the selected slot and the counters are past it, with the marker left only when AfterLog (223) failed; a failure moves no counter and changes a pool only in the crash window of a failed counter save |
| Syncer.WriteKeepsInv | syncer/syncer.go:194-226 | from an exact state, whatever marker it holds, every outcome of the write half (any fault) satisfies the storage invariant |
| Syncer.WriteLandsOnSaveFailure | syncer/syncer.go:211-221 | when the pool open, marker write and append succeed but the counter save fails, the log sits in the pool with the marker still naming it and the counters unmoved |
| Syncer.FlatLength | syncer/syncer.go:90-100 | with exact pools, the first n pools hold n*count logs |
| Syncer.CommittedLength | syncer/syncer.go:90-100 | with exact pools, the committed log holds exactly as many entries as the counters say |
| Syncer.CommitSlot | syncer/syncer.go:199-218 | writing the log at the selected slot and advancing the counters keeps the pools exact, adds one to the counter and appends the stamped log to the committed log |
| Syncer.SamePools | syncer/syncer.go:90-100 | whether pools are exact, and the committed log, depend only on the pools and the counters |
| Syncer.AppendGapFree | syncer/syncer.go:185-226 | a successful append met no failed read, marker write, append or save, keeps the pools exact, clears the marker unless AfterLog failed, and extends the committed log by exactly the new entry stamped with its index |
| Syncer.AppendSeq | syncer/syncer.go:199 | a successful append writes at the sequence number equal to the number of logs before it |
| Syncer.AppendFailure | syncer/syncer.go:185-226 | a failed append (any failed read, open, write or save) either leaves pools and counters as they were, or (a failed counter save) leaves exactly one landed log named by the marker |
| Syncer.AppendKeepsInv | syncer/syncer.go:133-226 | every append, whatever storage calls fail, AfterLog included, keeps the storage invariant |
| Syncer.Append | syncer/syncer.go:185-226 | an append never touches the snapshots; a failed modifier fails the append and writes no log; with no storage fault and no marker left behind, the append succeeds exactly when the pool accepts the entry at the selected slot, and then the pools hold the entry there and no marker is left |
| Syncer.AppendAsWritten | syncer/syncer.go:185-226 | the same promises for the append whose recovery compares logs as the source writes it, which only matters when a marker is left |
| Syncer.AsWrittenDropsLandedLog | syncer/syncer.go:173-180 | as written, recovery compares the stamped pool entry with the unstamped marker log, which differ at any index above 0; it clears the marker without counting the landed log, leaving a pool longer than its counter |
| Syncer.AsWrittenWedged | syncer/impls/mf/logpool.go:52-56 | after that recovery the next append fails, whatever faults it meets, and leaves the pools and counters as they were, because the counter no longer equals the pool length |
| SyncRead.Restamp | syncer/syncer.go:353-375 | each log read gets its global sequence number: base plus its position, and nothing else changes |
| SyncRead.RestampConcat | syncer/syncer.go:342-376 | numbering two consecutive runs equals numbering the second one from where the first ends |
| SyncRead.StartOf | syncer/syncer.go:291-296 | a sequence number splits into pool and index with pool*count+index equal to it, the index inside a pool |
| SyncRead.StartOfInverse | syncer/syncer.go:291-296 | splitting the sequence number of an in-range slot gives that slot back |
| SyncRead.LastSnapshot | syncer/snapshot.go:19-32 | pool 0 has no predecessor snapshot; for a later pool it is the snapshot stored with the pool before it, if one exists |
| SyncRead.StartSeq | syncer/syncer.go:276-289 | the empty cursor starts at 0; any other cursor fails exactly when S2N fails, with S2N's error; the start is within uint64 |
| SyncRead.GetAllLogs | syncer/syncer.go:271-379 | when every storage call succeeds, a bad cursor is the only error; before the first append the result is empty |
| SyncRead.LastPoolShape | syncer/syncer.go:300-307 | the last pool to read (one back when the counter sits at a pool boundary) holds the last counted log: earlier pools are full, later ones empty, and the committed log is everything up to it |
| SyncRead.ReadPoolSlice | syncer/syncer.go:348-357 | reading one pool from an index gives the matching slice of the numbered flat log |
| SyncRead.ReadFromFlat | syncer/syncer.go:342-376 | reading from (pool, index) through the last pool is the numbered flat log from pool*count+index on |
| SyncRead.ReadPastEnd | syncer/syncer.go:342-376 | a start at or past the last counted log reads nothing |
| SyncRead.ReadFromStart | syncer/syncer.go:342-376 | reading from the slot of sequence number m returns the committed log from m on, each entry numbered by its position |
| SyncRead.ResumeAfterCursor | syncer/syncer.go:271-379 | resuming from the cursor of log n returns exactly the committed logs after n, numbered, and nothing when n is the last one |
| SyncRead.ReadFromScratch | syncer/syncer.go:309-340 | the empty cursor returns every committed log, except that when the snapshot of the pool before the last one exists it returns a snapshot entry numbered one before that pool followed by the logs from that pool on |
| SyncRead.NothingBeforeFirstAppend | syncer/syncer.go:300-303 | with no log written, any valid cursor reads nothing |
| SyncRead.LastCursorWraps | syncer/syncer.go:288 | the cursor of the largest uint64 wraps startSeqIDN++ round to 0 and reads like the empty cursor, snapshot included |
| SyncRead.BadCursor | syncer/syncer.go:281-286 | a cursor that does not parse returns the parse error |
| SyncRead.ReadLogs | syncer/syncer.go:309-379 | a failed snapshot read (314), marshalling (324) or final pool open or read (362-369) is an error, and no other storage failure is; a pool failing inside the loop (343-351) ends the read without an error; a read that succeeds is a prefix of the fault-free answer, and all of it unless the loop was cut |
| SyncRead.ReadFromSplit | syncer/syncer.go:342-376 | reading a run of pools is reading them up to some pool, then the rest |
| SyncRead.GatheredPrefix | syncer/syncer.go:342-360 | when the loop stops at a pool, the logs gathered are the full answer cut just before that pool's logs |
| SyncRead.LoopFailureTruncates | syncer/syncer.go:343-351 | a pool failing inside the loop loses, without an error, that pool's logs and every later one |
| RecordCache.SeedRows | syncer/impls/snapshotrecordcache.go:23-31 | seeding files every row of the snapshot under its own ID |
| RecordCache.SeedRowsLastWins | syncer/impls/snapshotrecordcache.go:28-30 | when a snapshot holds two rows with the same ID, the cache keeps the later one |
| RecordCache.Init | syncer/impls/snapshotrecordcache.go:9-31 | without a previous snapshot the cache is empty; with one it holds that snapshot's rows by ID |
| RecordCache.GetSnapshotData | syncer/impls/snapshotrecordcache.go:51-71 | the export lists every cached row exactly once, nothing else, ordered by timestamp |
| RecordCache.SeedExportRoundTrip | syncer/impls/snapshotrecordcache.go:9-71 | seeding a cache from its own export rebuilds the same cache |
| PluginManager.New | syncer/impls/snapshotpluginmanager.go:11-45 | no generator map means no manager; otherwise a plugin is cached exactly when its generator yields a plugin and reports data in the previous snapshot; without a previous snapshot nothing is cached |
| PluginManager.GetCache | syncer/impls/snapshotpluginmanager.go:47-69 | a cached plugin is returned as is; an unknown ID, or a generator that yields no plugin, gives nothing; otherwise a fresh empty cache is generated, cached and returned |
| PluginManager.GetCacheStable | syncer/impls/snapshotpluginmanager.go:47-69 | once a lookup returns a plugin, every later lookup returns the same plugin and changes nothing |
| PluginManager.GetCaches4Save | syncer/impls/snapshotpluginmanager.go:71-80 | every cached plugin is returned, each once, and nothing else |
| Reducer.NewSnapshot | syncer/impls/snapshotimpl.go:11-27 | a snapshot starts from the record cache and the plugin manager seeded with the previous snapshot, every row filed under its ID |
| Reducer.ApplyAdd | syncer/impls/snapshotimpl.go:36-71 | an add is refused with CodeErrExists exactly when a synced row already has the ID; otherwise the row becomes the given data at the new version, marked synced |
| Reducer.CheckVersion | syncer/impls/snapshotimpl.go:82-97 | a change or delete passes exactly when the row exists and is either not synced or at the quoted version; a missing row is CodeErrNotExists and a version mismatch CodeErrConflict |
| Reducer.ApplyChange | syncer/impls/snapshotimpl.go:73-114 | a change fails exactly when the version check fails, with its error; otherwise the row is replaced by the new data at the new version, synced |
| Reducer.ApplyDel | syncer/impls/snapshotimpl.go:116-151 | a delete fails exactly when the version check fails, with its error; otherwise the row is removed and nothing else changes |
| Reducer.VersionChain | syncer/impls/snapshotimpl.go:36-151 | after an add, a change or delete succeeds exactly when it quotes the version the add wrote, and a second add of the ID is refused |
| Reducer.RecordOpsKeepInvariant | syncer/impls/snapshotimpl.go:36-151 | every record operation keeps all rows synced and filed under their own ID |
| Reducer.ApplyPluginLog | syncer/impls/snapshotimpl.go:153-185 | no plugin manager or no plugin for the ID is CodeErrNotExists; otherwise the plugin's own ApplyLog decides, and the record rows are never touched |
| Reducer.Route | syncer/snapshot.go:75-94 | plugin entries go to ApplyPluginLog; record entries never touch the plugins; an unknown operation is CodeErrLogic; a failed entry changes nothing |
| Reducer.ReplayConcat | syncer/snapshot.go:75-94 | replaying two batches in turn is replaying their concatenation, because failed entries are logged and skipped |
| Reducer.ReplayKeepsInvariant | syncer/snapshot.go:75-94 | replaying any logs keeps every row synced and filed under its ID |
| Reducer.Replay | syncer/snapshot.go:75-94 | replaying neither adds nor drops the plugin manager, nor changes its generators; plugin logs alone leave the record rows as they were, and record logs alone leave the manager as it was |
| Reducer.PluginSnapshots | syncer/impls/snapshotimpl.go:187-214 | without a plugin manager nothing is exported; otherwise the records follow a listing of the cached plugins, one per plugin, each under the type-table plugin's ID and listing exactly that plugin's income and expense rows |
| Reducer.GetSnapshotData | syncer/impls/snapshotimpl.go:216-233 | the snapshot holds every record row exactly once, ordered by timestamp, and one record per cached plugin listing exactly that plugin's rows |
| Reducer.OnePluginExport | syncer/impls/snapshotimpl.go:187-214 | with only the type-table plugin cached, the export is a single record, listing that plugin's rows |
| Reducer.SeededLookup | syncer/impls/snapshotpluginmanager.go:11-69 | a manager seeded from a snapshot answers a lookup with the cache seeding rebuilt; when seeding gave no rows, the generator's fresh empty cache is that cache |
| Reducer.SnapshotSeedsPlugins | syncer/impls/snapshotimpl.go:216-233 | with the type-table plugin the only one cached, a reducer seeded from the snapshot answers every plugin lookup with the cache that was snapshotted |
| Reducer.SnapshotSeedsRecords | syncer/impls/snapshotimpl.go:216-233 | a snapshot taken from a reducer seeds the next reducer with exactly the same records |
| SnapshotBuilder.RecordStep | syncer/snapshot.go:75-94 | for the record cache, a plugin entry is a no-op and a record entry applies as the reducer applies it when accepted |
| SnapshotBuilder.ReplayRecordsAgree | syncer/snapshot.go:75-94 | the record rows after replaying through the whole reducer are those of replaying the record entries alone |
| SnapshotBuilder.ReplayRecordsKeyed | syncer/snapshot.go:75-94 | replay keeps every row filed under its own ID |
| SnapshotBuilder.HistoryStep | syncer/snapshot.go:61-94 | the rows after pools 0..i are those after pools 0..i-1 with pool i replayed on top |
| SnapshotBuilder.BuildRecords | syncer/snapshot.go:54-94 | the rows a build computes are pool i's logs replayed on the rows seeded from the predecessor snapshot (or on nothing) |
| SnapshotBuilder.BuildAsWritten | syncer/snapshot.go:35-109 | as written: an existing snapshot is left alone, and a failing storage call stores nothing; otherwise a snapshot is stored for pool i even when the predecessor snapshot is missing, and it seeds exactly the rows the build computed; pools and other snapshots are untouched |
| SnapshotBuilder.ExportRecords | syncer/impls/snapshotimpl.go:216-233 | the exported snapshot seeds back to exactly the reducer's rows |
| SnapshotBuilder.Build | syncer/snapshot.go:35-109 | the corrected build: pool i is built only when pool 0 or the predecessor snapshot exists and no storage call fails (a failure stores nothing); every snapshot then seeds the rows of replaying all pools 0..i |
| SnapshotBuilder.BuildKeepsSnapInv | syncer/snapshot.go:61-103 | building on a present predecessor keeps every stored snapshot equal to the full history of its pool |
| SnapshotBuilder.AsWrittenLosesHistory | syncer/snapshot.go:61-68 | two pools holding "a" then "b", with no snapshot of pool 0: the as-written build of pool 1 stores a snapshot without "a", which the full history holds |
| SnapshotBuilder.BuilderStep | syncer/snapshot.go:111-132 | one request handled, failing or not: the queue loses its head, the pools, counters and marker stay, a failed build stores nothing, and sound snapshots stay sound |
| SnapshotBuilder.RunBuilder | syncer/snapshot.go:111-132 | draining the queue, whichever builds fail, leaves it empty, keeps the pools and the slot for the next log, and keeps snapshots sound |
| SnapshotBuilder.AppendFreezesClosedPools | syncer/syncer.go:185-226 | an append never goes back to an earlier pool and never changes a pool before the one being written, nor the snapshots |
| SnapshotBuilder.AppendKeepsSnapshotsSound | syncer/syncer.go:185-226 | snapshots exist only for closed pools and match their history, and appends keep it that way |
| MapEnum.Values | syncer/impls/snapshotpluginmanager.go:75-77 | ranging over a map yields each value once, one per key, in some order |
| MapEnum.SortedValues | syncer/impls/snapshotrecordcache.go:52-68 | collecting a map's values and sorting them by key yields each value once, in key order |
| MapEnum.SortByFacts | syncer/impls/snapshotrecordcache.go:58-68 | slices.SortFunc permutes the values into key order |
| SnapshotBuilder.ReplayRecordsConcat | syncer/snapshot.go:75-94 | replaying two runs of entries one after the other is replaying them joined |
| TypeTableCache.Project | syncer/impls/bookkeeping/model.go:24-27 | a row read back from JSON keeps its ID and data; the bookkeeping row type drops label, parent, target and time, while the demo row type keeps them all |
| TypeTableCache.FileRows | syncer/impls/bookkeeping/synctypetablesnapshotcache.go:45-51 | filing rows keeps the table keyed by ID and files exactly the IDs already present or listed |
| TypeTableCache.SeedFrom | syncer/impls/bookkeeping/synctypetablesnapshotcache.go:33-52 | seeding from the plugin records keeps both tables keyed by ID |
| TypeTableCache.New | syncer/impls/bookkeeping/synctypetablesnapshotcache.go:14-55 | the new cache is keyed by ID, reports data exactly when either table is non-empty, and is empty without a previous snapshot |
| TypeTableCache.WithTable | syncer/impls/bookkeeping/synctypetablesnapshotcache.go:61-70 | writing the table of one meta type leaves the other table alone |
| TypeTableCache.ApplyLog | syncer/impls/bookkeeping/synctypetablesnapshotcache.go:72-102 | another plugin's entry is CodeErrNotExists, an undecodable payload CodeErrLogic, an unknown meta type CodeErrNotExists; success touches only the table the payload names |
| TypeTableCache.UpsertRow | syncer/impls/bookkeeping/synctypetablesnapshotcache.go:90-94 | an add or change writes a row under the log's record ID holding the log's data, with no target |
| TypeTableCache.ApplyLogKeepsKeyed | syncer/impls/bookkeeping/synctypetablesnapshotcache.go:72-102 | an applied entry keeps both tables keyed by ID |
| TypeTableCache.ApplyLogEffect | syncer/impls/demo/synctypetablesnapshotcache.go:90-109 | add and change upsert the row; a delete removes the row in the bookkeeping variant and, in the demo variant, requires the row and only records its target ID |
| TypeTableCache.GetSnapshotData | syncer/impls/bookkeeping/synctypetablesnapshotcache.go:104-121 | the export lists each table's rows exactly once, nothing else; the demo variant sorts them by time (demo/synctypetablesnapshotcache.go:121-133) |
| TypeTableCache.SeedExportRoundTrip | syncer/impls/bookkeeping/synctypetablesnapshotcache.go:14-121 | a cache seeded from its own export equals the cache, for rows that survive the JSON row type |
| TypeTableCache.FileRowsRebuild | syncer/impls/bookkeeping/synctypetablesnapshotcache.go:45-51 | filing a table's own rows into an empty table rebuilds it |
| TypeTableCache.FileRowsFromRows | syncer/impls/bookkeeping/synctypetablesnapshotcache.go:45-51 | every filed row comes from a listed row with its ID |
| TypeTable.Derived | syncer/impls/bookkeeping/typetable.go:58-62 | the parent set holds exactly the non-empty parents of rows not transferred away |
| TypeTable.AfterLoad | syncer/impls/bookkeeping/typetable.go:51-63 | loading keeps the rows and leaves the parent set consistent with them; a failed load leaves the set empty |
| TypeTable.Add | syncer/impls/bookkeeping/typetable.go:128-205 | Add fails exactly when its checks fail, with their error; on success the new row is stored under a fresh ID with a label no other row uses, and a named parent is an existing top-level row not transferred away, now in the parent set |
| TypeTable.Del | syncer/impls/bookkeeping/typetable.go:238-313 | Del fails exactly when its checks fail; on success only the row's target is recorded, the target is another existing live row and the deleted row is no one's parent; the parent is released once no live child remains |
| TypeTable.DelAsWritten | syncer/impls/bookkeeping/typetable.go:238-313 | as written, Del fails or succeeds under the same checks and records only the row's target |
| TypeTable.Change | syncer/impls/bookkeeping/typetable.go:366-473 | Change fails exactly when its checks fail; on success label, data and parent are rewritten, the label is unused by other rows, and a new parent is a live top-level row other than itself while the row has no children |
| TypeTable.ChangeAsWritten | syncer/impls/bookkeeping/typetable.go:366-473 | as written, Change fails or succeeds under the same checks and rewrites label, data and parent |
| TypeTable.AddKeepsInv | syncer/impls/bookkeeping/typetable.go:128-205 | any accepted Add keeps the parent set derived from the rows, labels unique and the hierarchy two levels deep; Add does not check the ID, so the table keeps no row under the empty ID, and with it the whole invariant, exactly when the added ID is not empty |
| TypeTable.DelKeepsConsistent | syncer/impls/bookkeeping/typetable.go:238-313 | the corrected Del keeps the parent set equal to the one derived from the rows |
| TypeTable.DelKeepsTwoLevels | syncer/impls/bookkeeping/typetable.go:238-313 | Del keeps the hierarchy two levels deep |
| TypeTable.DelKeepsInv | syncer/impls/bookkeeping/typetable.go:238-313 | the corrected Del keeps the table invariant |
| TypeTable.ChangeKeepsConsistent | syncer/impls/bookkeeping/typetable.go:366-473 | the corrected Change keeps the parent set derived from the rows |
| TypeTable.ChangeKeepsTwoLevels | syncer/impls/bookkeeping/typetable.go:366-473 | Change keeps the hierarchy two levels deep |
| TypeTable.ChangeKeepsInv | syncer/impls/bookkeeping/typetable.go:366-473 | the corrected Change keeps the table invariant |
| TypeTable.FamilyInv | syncer/impls/bookkeeping/typetable.go:51-63 | the example table (parent "p" with children "a" and "b", and a top-level "x") satisfies the invariant |
| TypeTable.DelAsWrittenDrifts | syncer/impls/bookkeeping/typetable.go:289-307 | as written, transferring both children of "p" leaves "p" in the parent set although the rows no longer derive it, so deleting "p" is refused with a conflict |
| TypeTable.DelReleasesParent | syncer/impls/bookkeeping/typetable.go:238-313 | with the corrected Del, "p" can be deleted once both children are transferred |
| TypeTable.ChangeAsWrittenDrifts | syncer/impls/bookkeeping/typetable.go:462-464 | as written, a Change of a row already transferred to "p" that names "p" as parent marks "p" valid although transferred rows make no parent valid, so the set is no longer derived from the rows; the corrected Change keeps it derived |
| TypeTable.TestAdd | syncer/impls/bookkeeping/typetable.go:88-126 | the corrected TestAdd answers yes exactly when Add would succeed |
| TypeTable.TestDel | syncer/impls/bookkeeping/typetable.go:207-236 | the corrected TestDel answers yes exactly when Del would succeed |
| TypeTable.TestChange | syncer/impls/bookkeeping/typetable.go:315-364 | the corrected TestChange answers yes exactly when Change would succeed |
| TypeTable.TestsPredict | syncer/impls/bookkeeping/typetable.go:88-473 | each corrected test agrees with its operation on every input, whatever the data |
| TypeTable.TestsAsWrittenMispredict | syncer/impls/bookkeeping/typetable.go:88-364 | the as-written tests answer yes for a child as parent, a used label, a parent still holding children and a row with children being moved, all of which the operations refuse |
| TypeTable.TestAddAsWritten | syncer/impls/bookkeeping/typetable.go:88-126 | the test as written answers yes whenever Add would succeed; the converse fails, as TestsAsWrittenMispredict shows |
| TypeTable.TestDelAsWritten | syncer/impls/bookkeeping/typetable.go:207-236 | the test as written answers yes whenever Del would succeed; the converse fails, as TestsAsWrittenMispredict shows |
| TypeTable.TestChangeAsWritten | syncer/impls/bookkeeping/typetable.go:315-364 | the test as written answers yes whenever Change would succeed; the converse fails, as TestsAsWrittenMispredict shows |
| Client.Find | syncer/syncer_test/utclient.go:74-75 | the client's scans stop at the first row with the ID, and find none exactly when no row has it |
| Client.AddRecord | syncer/syncer_test/utclient.go:61-71 | a new row is appended after all existing rows, waiting for upload, and a fresh ID is found at its position |
| Client.DelRecord | syncer/syncer_test/utclient.go:73-106 | a delete succeeds exactly when the first row with the ID exists, is not deleted and is not in flight; a never-uploaded row is removed, an uploaded one is marked deleted and waiting; a refusal changes nothing |
| Client.ModifyRecord | syncer/syncer_test/utclient.go:108-133 | a modify succeeds under the same conditions and rewrites only that row's data, marking it waiting; a refusal changes nothing |
| Client.UploadChanges | syncer/syncer_test/utclient.go:135-153 | every waiting row is marked in flight, nothing else changes, no row is left waiting, and the requests sent are exactly those of the waiting rows |
| Client.RequestsExact | syncer/syncer_test/utclient.go:135-153 | as many requests are sent as rows wait for upload, and each request is the delete, add or change of some waiting row |
| Client.UploadIdempotent | syncer/syncer_test/utclient.go:135-153 | a second upload pass sends nothing and changes nothing |
| Client.EditThenUpload | syncer/syncer_test/utclient.go:108-153 | modifying or deleting a synced row and uploading sends exactly one change or delete quoting the row's version |
| Client.ApplyAddRecord | syncer/syncer_test/utclient.go:272-307 | an add for a synced row is ignored; for a row not synced it overwrites that row with the server's version, synced; for an unknown ID it appends the synced row |
| Client.ApplyChangeRecord | syncer/syncer_test/utclient.go:218-246 | a change is applied exactly when the row exists and is not synced or is at the quoted version; it then replaces the row with the server's version, otherwise nothing changes |
| Client.ApplyDelRecord | syncer/syncer_test/utclient.go:248-270 | a delete is applied under the same condition and removes the row; otherwise nothing changes |
| Client.ApplySnapshot | syncer/syncer_test/utclient.go:185-216 | an undecodable snapshot changes nothing; a decoded one replaces all rows by the snapshot's rows, in order |
| Client.ApplyLog | syncer/syncer_test/utclient.go:163-180 | plugin entries are skipped; any other entry moves the cursor to its sequence number, whether applying it succeeded or not |
| Client.SyncFromServer | syncer/syncer_test/utclient.go:155-183 | a failed fetch returns its error and nothing else does |
| Client.ReplayConcat | syncer/syncer_test/utclient.go:163-180 | catching up in two fetches is catching up once over both |
| Client.ReplayCursor | syncer/syncer_test/utclient.go:163-180 | after a fetch the cursor names the last non-plugin entry, or is unchanged when there was none |
| Client.Replay | syncer/syncer_test/utclient.go:163-180 | a fetch holding only plugin logs leaves the client, its rows and its cursor, as it was |
| Client.CursorResumes | syncer/syncer_test/utclient.go:176 | the cursor left after entry n makes the server resume at n+1 |
| Client.View | syncer/syncer_test/utclient.go:219-225 | the client's rows seen as the server's record map: an ID is present exactly when a scan finds it |
| Client.ViewUpdate | syncer/syncer_test/utclient.go:232-238 | overwriting the row a scan finds updates exactly that ID in the view |
| Client.ViewRemove | syncer/syncer_test/utclient.go:262 | removing a row with a unique ID removes exactly that ID from the view |
| Client.ViewAppend | syncer/syncer_test/utclient.go:299-304 | appending a row with a new ID adds exactly that ID to the view |
| Client.AcceptsAgrees | syncer/syncer_test/utclient.go:226 | the client accepts a change or delete exactly when the server's snapshot version check passes on the client's view |
| Client.AddAgrees | syncer/syncer_test/utclient.go:272-307 | the client's add leaves the view the snapshot's ApplyAddRecordLog would produce (the unchanged view when it refuses) |
| Client.ChangeAgrees | syncer/syncer_test/utclient.go:218-246 | the client's change succeeds exactly when the snapshot's does, with the same resulting view |
| Client.DelAgrees | syncer/syncer_test/utclient.go:248-270 | the client's delete succeeds exactly when the snapshot's does, with the same resulting view |
| Client.ApplyAgrees | syncer/syncer_test/utclient.go:163-175 | on a client with distinct IDs, applying a record entry changes the view exactly as the snapshot builder changes its record cache |
| Client.FindMirror | syncer/syncer_test/utclient.go:74-75 | while uploads are in flight, an ID the uploader knows sits at the same index in an observer's rows, or is one of the uploader's pending adds |
| Client.EchoStep | syncer/syncer_test/utclient.go:163-180 | an uploader and an observer applying the server's echo of one in-flight upload stay in the in-flight relation |
| Client.Settle | syncer/syncer_test/utclient.go:309-311 | once nothing is in flight, the related clients hold equal rows |
| Client.Converge | syncer/syncer_test/utclient.go:309-311 | when the server echoes every in-flight upload, the uploader and an observer end with equal rows, which is what the tests' Equal checks |
| Client.SnapshotConverges | syncer/syncer_test/utclient.go:185-216 | two clients that read the same snapshot entry and the same entries after it end in the same state, whatever they held before |
| Client.LastRecordLog | syncer/syncer_test/utclient.go:163-180 | the position of the last entry that is not a plugin entry, after which only plugin entries follow; none when every entry is a plugin entry |
| TrafficPackage.Total | trafficpackage/trafficpackage.go:46-57 | the summed left amounts of packages that are never negative are never negative |
| TrafficPackage.LeftFilter | trafficpackage/trafficpackage.go:46-57 | adding up only the packages with data left is the same as adding up the list GetPackages returns when empty packages are excluded |
| TrafficPackage.GetAmountSumsPackages | trafficpackage/trafficpackage.go:46-57 | the amount of an owner is the sum of the left amounts of the packages it is shown with data left |
| TrafficPackage.Plan | trafficpackage/trafficpackage.go:71-91 | the consume plan walks the packages in order, naming each with its current left amount and taking a positive part of it; nothing is left to plan exactly when the request fits in the total, and then the plan takes exactly the request; otherwise the shortfall is the request minus the total |
| TrafficPackage.ConsumeAmount | trafficpackage/trafficpackage.go:59-102 | a non-positive request changes nothing and succeeds; a request over the owner's amount fails with OutOfRange; any failure leaves the store as it was |
| TrafficPackage.ConsumeAmountSpec | trafficpackage/trafficpackage.go:59-102 | on a valid store a positive request succeeds if and only if it fits in the owner's amount; success lowers the amount by exactly the request and keeps the store valid; failure is OutOfRange with the store unchanged |
| TrafficPackage.ConsumeLowers | trafficpackage/impl/fmstorage/storage.go:83-127 | an accepted plan with distinct package targets lowers the owner's amount by the plan's total, keeps the store valid and leaves every other owner's packages alone |
| TrafficPackage.AddPackageRaises | trafficpackage/impl/fmstorage/storage.go:129-171 | a successful AddPackage raises the owner's amount by the new package's amount |
| TrafficPackage.ConsumeOne | trafficpackage/trafficpackage.go:141-157 | taking at most the left amount of one stored package succeeds, keeps the store valid, lowers the amount by what was taken and keeps every other package of the owner stored |
| TrafficPackage.ConsumeStep | trafficpackage/trafficpackage.go:120-157 | one step of the TryConsumeAmount loop: a storage failure is an Io error with nothing changed; otherwise it succeeds exactly when the one-line plan is accepted, and on a valid store it lowers the amount by what was taken and keeps the packages still to visit stored |
| TrafficPackage.ConsumeLoop | trafficpackage/trafficpackage.go:113-160 | the package-by-package loop consumes between nothing and the request, never more than the packages hold; an error leaves the store as it was; on a valid store the amount drops by what was consumed; without failures it stops only when the request is met or the packages are used up |
| TrafficPackage.TryConsumeAmount | trafficpackage/trafficpackage.go:108-163 | a non-positive request consumes nothing; a positive one consumes between zero and the request; an error consumes nothing and changes nothing; the amount drops by exactly what was consumed; without storage failures it consumes the smaller of the request and the owner's amount; a failure at the first package is an Io error |
| OperatorSet.Chain | trafficpackage/operatorset.go:19-39 | the reference definition of asking operators in order for what is still missing: never more requests than operators; an error reports nothing consumed; the first operator is asked for the whole outstanding amount |
| OperatorSet.ChainAsksForTheRest | trafficpackage/operatorset.go:24-36 | every operator but the last one asked answered without error, and the next operator is asked for what the previous one left missing |
| OperatorSet.ChainStopsAtGoal | trafficpackage/operatorset.go:31-33 | the chain stops before the last operator only once the request is met, and a run that falls short asked every operator |
| OperatorSet.ChainBounded | trafficpackage/operatorset.go:19-39 | with operators that never take more than asked nor a negative amount, a successful run consumes between what was already gathered and the request |
| OperatorSet.ChainAt | trafficpackage/operatorset.go:24-36 | one step from operator i: an error ends the run with nothing consumed; meeting the request ends it with the total; falling short asks the next operator for the rest |
| OperatorSet.ChainStep | trafficpackage/operatorset.go:24-36 | the same step stated for the whole run with the requests already made in front |
| OperatorSet.ChainDone | trafficpackage/operatorset.go:38 | after the last operator the run returns what was gathered, with no error |
| OperatorSet.ChainFacts | trafficpackage/operatorset.go:19-39 | a whole run: an error consumes nothing; honest operators keep a successful run between zero and the request; a run that falls short asked every operator |
| OperatorSet.TryConsumeAmount | trafficpackage/operatorset.go:19-39 | the loop over the operators returns exactly the reference run: the same amount, error and sequence of requests |
| PackageStore.Find | trafficpackage/impl/fmstorage/storage.go:94-102 | the package lookup returns the first position holding the id, and finds nothing exactly when no package has it |
| PackageStore.FindUnique | trafficpackage/impl/fmstorage/storage.go:94-102 | with unique package ids the lookup finds each package at its own position |
| PackageStore.GetPackageInfo | trafficpackage/impl/fmstorage/storage.go:43-64 | the returned package is stored under the owner with the asked id; the call fails with NotFound exactly when the owner is unknown or has no package with that id |
| PackageStore.Filter | trafficpackage/impl/fmstorage/storage.go:73-77 | a package is kept exactly when it is in the list and either empty packages are asked for or it has data left; asking for empty packages keeps the whole list |
| PackageStore.GetPackages | trafficpackage/impl/fmstorage/storage.go:66-81 | the owner's packages with data left, or all of them when asked; an unknown owner has none |
| PackageStore.Check | trafficpackage/impl/fmstorage/storage.go:104-117 | one plan line passes exactly when its package exists, its recorded old amount is the current left amount and it takes no more than is left |
| PackageStore.Validate | trafficpackage/impl/fmstorage/storage.go:104-117 | the plan passes exactly when every line passes, and a failure is NotFound, Reject or OutOfRange |
| PackageStore.Apply | trafficpackage/impl/fmstorage/storage.go:119-123 | applying the plan keeps the packages and their ids in place and, with unique ids, lowers each package's left amount by the total the plan names for it |
| PackageStore.Consume | trafficpackage/impl/fmstorage/storage.go:83-127 | the write succeeds exactly when the owner exists and every line is accepted against the stored packages, and then the owner's packages become the applied plan; an unknown owner is NotFound; a failure changes nothing |
| PackageStore.ConsumeChecked | trafficpackage/impl/fmstorage/storage.go:83-127 | the corrected write also rejects a plan naming one package twice; otherwise it behaves as Consume, and any failure changes nothing |
| PackageStore.NamedDistinct | trafficpackage/impl/fmstorage/storage.go:119-123 | in a plan with distinct targets a package no line names loses nothing, and a named package loses exactly that line's amount |
| PackageStore.ConsumeCheckedKeepsValid | trafficpackage/impl/fmstorage/storage.go:83-127 | the corrected write keeps every left amount non-negative and the ids unique |
| PackageStore.ConsumeOverdraws | trafficpackage/impl/fmstorage/storage.go:104-123 | two lines that each pass the check against the old amount of the same package are both applied, leaving a left amount of -2 |
| PackageStore.AddPackage | trafficpackage/impl/fmstorage/storage.go:129-171 | a non-positive amount is InvalidArgument; the id is the given one or the generated one when zero; the call succeeds exactly when the owner has no package with that id, and then appends a full package; a failure changes nothing |
| PackageStore.AddPackageKeepsValid | trafficpackage/impl/fmstorage/storage.go:129-171 | adding keeps the store valid and the new package reads back through GetPackageInfo with its full amount |
| DailyBonus.Entry | trafficpackage/impl/fmstorage/dailybonusstorage.go:59-92 | a stored owner's entry is used as is; an unknown owner gets an undated entry from the initialiser, and the lookup fails exactly when the owner is unknown and the initialiser fails |
| DailyBonus.Rollover | trafficpackage/impl/fmstorage/dailybonusstorage.go:94-97 | moving a stale day's bonus into the kept bonus preserves the sum and the date, leaves an entry dated today or with no day's bonus alone, and afterwards any remaining day's bonus is dated today |
| DailyBonus.RolloverIdempotent | trafficpackage/impl/fmstorage/dailybonusstorage.go:94-97 | rolling over twice on one day is the same as once |
| DailyBonus.GetAllBonus | trafficpackage/impl/fmstorage/dailybonusstorage.go:75-106 | reading fails only for an unknown owner whose initialiser fails, and then changes nothing; otherwise it stores the rolled-over entry and returns its kept and day's bonus, whose sum is the entry's sum, and a non-zero day's bonus is dated today |
| DailyBonus.ReadRollsOver | trafficpackage/impl/fmstorage/dailybonusstorage.go:75-106 | reading an owner whose stored day's bonus dates from another day stores that bonus moved into the kept bonus and reports the sum as kept with no day's bonus |
| DailyBonus.GetAllBonusStable | trafficpackage/impl/fmstorage/dailybonusstorage.go:75-106 | a second read on the same day returns the same values and stores nothing new |
| DailyBonus.ConsumeBonus | trafficpackage/impl/fmstorage/dailybonusstorage.go:108-140 | the write succeeds exactly when the entry exists or can be created and holds at least the asked day's and kept bonus, and then subtracts both; a known owner short of either gets OutOfRange; a failure changes nothing |
| DailyBonus.ConsumeBonusLowers | trafficpackage/impl/fmstorage/dailybonusstorage.go:127-134 | with non-negative amounts a successful write keeps both bonuses between zero and their old values and lowers the sum by the two amounts |
| DailyBonus.HasDailyBonus | trafficpackage/impl/fmstorage/dailybonusstorage.go:142-172 | the owner has today's bonus exactly when its entry is dated today; the store after the call is the one a read leaves; a failure reports no bonus and changes nothing |
| DailyBonus.EarnDailyBonus | trafficpackage/impl/fmstorage/dailybonusstorage.go:174-211 | earning succeeds exactly when the entry exists or can be created and is not dated today, and then dates it today with a day's bonus of 5 after rolling the old one over; a second earning on one day is AlreadyExists |
| DailyBonus.EarnOncePerDay | trafficpackage/impl/fmstorage/dailybonusstorage.go:142-211 | after earning, earning again that day is refused with the store unchanged, HasDailyBonus answers yes and the day's bonus reads 5 |
| DailyBonus.ConsumeAmountAsWritten | trafficpackage/dailybonusoperator.go:32-61 | the operator as written: a non-positive request is a no-op, and for a known entry a request fails with ResourceExhausted exactly when it exceeds the sum of both bonuses |
| DailyBonus.ConsumeAmountGrowsBonus | trafficpackage/dailybonusoperator.go:50-58 | with 10 kept and no day's bonus, consuming 3 as written succeeds and leaves 13 kept: the negative kept amount passed to ConsumeBonus raises the balance |
| DailyBonus.ConsumeAmount | trafficpackage/dailybonusoperator.go:32-61 | the corrected operator: for a non-negative entry a positive request succeeds exactly when it fits in the sum of both bonuses; it takes the day's bonus first and the rest from the kept bonus, lowers the sum by exactly the request, keeps the entry non-negative and leaves other owners alone; failures are ResourceExhausted or OutOfRange |
| DailyBonus.TryConsumeAmount | trafficpackage/dailybonusoperator.go:63-107 | a non-positive request consumes nothing; a failed read reports the whole request as consumed, as the source returns it; for a non-negative entry it consumes the smaller of the request and the sum of both bonuses, lowers the sum by that and keeps the entry non-negative |
| DailyBonus.TryNegativeKept | trafficpackage/dailybonusoperator.go:81-101 | with a kept bonus of -1 and a day's bonus of 5, trying 2 asks for no kept bonus; the store compares its kept bonus -1 with 0 and refuses, and the operator reports 2 together with OutOfRange, the store unchanged |
| DailyBonus.DailyScenarioFirstDay | trafficpackage/ut/trafficpackage_test.go:64-83 | the test's first day: earning gives a day's bonus of 5 and consuming 2 leaves 3 |
| DailyBonus.DailyScenarioRollover | trafficpackage/ut/trafficpackage_test.go:85-87 | the next day the 3 left over is read as kept bonus with no day's bonus |
| DailyBonus.DailyScenarioEarnAgain | trafficpackage/ut/trafficpackage_test.go:89-95 | earning on the new day gives 3 kept and 5 for the day, and a second earning that day is refused |
| DailyBonus.DailyScenarioTryOne | trafficpackage/ut/trafficpackage_test.go:97-101 | trying 1 consumes 1 from the day's bonus |
| DailyBonus.DailyScenarioTryNine | trafficpackage/ut/trafficpackage_test.go:103-107 | trying 9 with 7 available consumes 7 and empties both bonuses |
| DailyBonus.DailyScenarioTryEmpty | trafficpackage/ut/trafficpackage_test.go:109-111 | trying 1 with nothing available consumes nothing and succeeds |
| AccountStore.InvNamesUnique | account/impls/fmaccountstorage/storage.go:106-147 | in a consistent store no two accounts share an account name |
| AccountStore.Init | account/impls/fmaccountstorage/storage.go:61-88 | loading keeps every account and stamps a zero creation time with the load time, leaving other creation times alone |
| AccountStore.IndexOf | account/impls/fmaccountstorage/storage.go:70-71 | the name index built while loading holds every account's name, and each entry maps a name to the id of an account with that name |
| AccountStore.InitInv | account/impls/fmaccountstorage/storage.go:61-88 | loading accounts whose ids match their keys and whose names are distinct gives a consistent store: the index maps exactly the account names to their ids |
| AccountStore.GetIDFromAccountName | account/impls/fmaccountstorage/storage.go:94-104 | in a consistent store the lookup finds an id exactly when some account has the name, and the id found is that account's |
| AccountStore.AddAccountEx | account/impls/fmaccountstorage/storage.go:106-147 | in a consistent store adding fails with AlreadyExists exactly when the name or the id (the given one, or the generated one when zero) is taken; success stores the new account under that id and indexes its name |
| AccountStore.AddAccountKeepsInv | account/impls/fmaccountstorage/storage.go:106-147 | adding keeps the store consistent |
| AccountStore.AddAccount | account/impls/fmaccountstorage/storage.go:90-92 | adding with a generated id reads back its name, password and empty data, and fails exactly when the name or generated id is taken |
| AccountStore.FindAccount | account/impls/fmaccountstorage/storage.go:212-234 | in a consistent store the lookup by name fails with NotFound exactly when no account has the name, and otherwise returns that account's id and password |
| AccountStore.GetAccount | account/impls/fmaccountstorage/storage.go:236-247 | reading an id fails with NotFound exactly when it is unknown |
| AccountStore.GetAccountData | account/impls/fmaccountstorage/storage.go:249-259 | reading an id's data fails with NotFound exactly when it is unknown |
| AccountStore.HasAccount | account/impls/fmaccountstorage/storage.go:261-267 | true exactly when some account is stored |
| AccountStore.FindGetAgree | account/impls/fmaccountstorage/storage.go:212-247 | the id found by name reads back with that name and the same password |
| AccountStore.AddThenFind | account/impls/fmaccountstorage/storage.go:106-234 | an added account is found by its name with its id and password |
| AccountStore.SetHashedPassword | account/impls/fmaccountstorage/storage.go:149-168 | an unknown id is NotFound; otherwise only that account's password changes and every other account, the index and the tokens stay |
| AccountStore.SetAdvanceConfig | account/impls/fmaccountstorage/storage.go:170-189 | an unknown id is NotFound; otherwise only that account's configuration changes |
| AccountStore.GetAdvanceConfig | account/impls/fmaccountstorage/storage.go:191-210 | reading an id's configuration fails with NotFound exactly when it is unknown |
| AccountStore.SetThenGetConfig | account/impls/fmaccountstorage/storage.go:149-210 | a configuration set reads back, and both setters keep the store consistent |
| AccountStore.RenameAccountName | account/impls/fmaccountstorage/storage.go:290-326 | an unknown id is NotFound; renaming to the current name changes nothing; otherwise it fails with AlreadyExists exactly when another account has the new name, and success changes only that account's name |
| AccountStore.RenameKeepsInv | account/impls/fmaccountstorage/storage.go:290-326 | renaming keeps the store consistent, the new name resolves to the id and the old name no longer resolves |
| AccountStore.ListUsers | account/impls/fmaccountstorage/storage.go:269-288 | the listed users are exactly the accounts whose creation time falls in the asked range, each with its name, id and creation time |
| AccountStore.CleanExpired | account/impls/fmaccountstorage/storage.go:328-340 | cleaning drops exactly the expired tokens, keeps the rest unchanged, counts what it dropped and records the time of the clean |
| AccountStore.Live | account/impls/fmaccountstorage/storage.go:331-337 | the tokens kept by a clean are exactly the unexpired ones, unchanged |
| AccountStore.LiveCount | account/impls/fmaccountstorage/storage.go:328-340 | the tokens before a clean are the kept ones plus the dropped ones |
| AccountStore.CleanIdempotent | account/impls/fmaccountstorage/storage.go:328-340 | a second clean at the same time drops nothing |
| AccountStore.AddToken | account/impls/fmaccountstorage/storage.go:342-364 | adding a token fails with AlreadyExists exactly when it is stored; success drops the expired tokens, stores the new one with its expiry and owner and touches no account |
| AccountStore.DelToken | account/impls/fmaccountstorage/storage.go:366-385 | deleting fails with NotFound exactly when the token is not stored; success drops it and the expired tokens |
| AccountStore.AddThenDel | account/impls/fmaccountstorage/storage.go:342-385 | deleting a token just added removes it and keeps every other unexpired token |
| AccountStore.AsTime | account/impls/fmaccountstorage/storage.go:408 | the type assertion succeeds exactly when the value is a time |
| AccountStore.RenewAsWritten | account/impls/fmaccountstorage/storage.go:393-420 | the renewal as written leaves a missing token alone |
| AccountStore.Renew | account/impls/fmaccountstorage/storage.go:415-417 | the intended renewal pushes only that token's expiry back by the duration |
| AccountStore.TokenExistsWith | account/impls/fmaccountstorage/storage.go:387-441 | the answer is whether the token is stored; accounts are untouched; a clean runs, and is recorded, only when the last one is more than an hour old |
| AccountStore.TokenExists | account/impls/fmaccountstorage/storage.go:387-441 | the source's TokenExists answers whether the token is stored |
| AccountStore.TokenExistsRenewing | account/impls/fmaccountstorage/storage.go:387-441 | the corrected TokenExists answers the same |
| AccountStore.RenewNeverExtends | account/impls/fmaccountstorage/storage.go:408-413 | as written, asserting the stored token record to a time always fails, so a renewal never moves any expiry and at most drops expired tokens |
| AccountStore.RenewExtends | account/impls/fmaccountstorage/storage.go:415-417 | with the corrected assertion the token's expiry moves back by the duration, and the token survives the clean exactly when the pushed-back expiry has not passed |
| AccountStore.RenewDiffers | account/impls/fmaccountstorage/storage.go:408-417 | on the same store the as-written call keeps the old expiry while the corrected one extends it |
| WalletCodec.SplitN | wallet/codec.go:24 | strings.SplitN on "\n": at least one and at most n fields |
| WalletCodec.SplitHead | wallet/codec.go:24 | a field free of line breaks followed by "\n" splits off as the first field and the rest is split into n-1 |
| WalletCodec.SplitJoin | wallet/codec.go:24 | joining fields with "\n", where all but the last are free of line breaks, and splitting into that many gives the fields back |
| WalletCodec.SplitCount | wallet/codec.go:24-25 | the split yields exactly n fields if and only if the text holds at least n-1 line breaks |
| WalletCodec.ParseHistoryItem | wallet/codec.go:23-57 | parsing succeeds exactly when there are six fields and the first three are int64 decimals; fewer fields give ErrBadData and no fields; otherwise the failure is a syntax or range error of strconv; account and remark are the fourth and sixth fields |
| WalletCodec.RoundTrip | wallet/codec.go:17-57 | a history line made of the coins' decimal and the payload built by BuildHistoryPayload parses back to exactly those values, for any int64 numbers and names without line breaks (the remark may hold line breaks) |
| WalletCodec.PayloadSplits | wallet/codec.go:19-21 | with a single-line account and key, the payload BuildHistoryPayload makes splits back into its type, time, account, key and remark, and the remark keeps its line breaks |
| WalletCodec.TooFewFields | wallet/codec.go:24-29 | a line with fewer than five line breaks is rejected as bad data |
| WalletOption.OptionNew | wallet/option.go:27-52 | each flag of the built options is set exactly when its option appears among those applied |
| WalletOption.ConflictFlag | wallet/option.go:9-23 | both overflow and accumulation is ErrConflict; otherwise the flag is 1 exactly for accumulation, 2 exactly for overflow, 0 for neither |
| WalletOption.AllowNegativeUnreachable | wallet/option.go:9-23 | the flag never carries bit 4, and allowNegative has no effect on it, so the scripts' "allow negative" branch (lua.go:98, 142) is unreachable through the options |
| WalletOption.OptionsAsSet | wallet/option.go:27-34 | the options built depend only on which options were given, not on their order or repetition |
| WalletOption.RepeatIdempotent | wallet/option.go:27-34 | applying the same option twice in a row equals applying it once |
| WalletScripts.LockSet | wallet/lua.go:6-32 | an existing key with flag 0 is refused with "exists" and nothing changes; otherwise the script answers 1; histories are never touched |
| WalletScripts.LockSetEffect | wallet/lua.go:14-29 | on success the key holds the new value (set, accumulated for flag bit 1, or overwritten) and the total moves by exactly the key's change; other accounts are untouched |
| WalletScripts.LockSetKeepsBalanced | wallet/lua.go:6-32 | an account whose total equals the sum of its lock keys stays so, and its locked coins move by the key's change |
| WalletScripts.LockRemove | wallet/lua.go:34-48 | a missing key answers 0 and changes nothing; an existing key answers 1 and is gone afterwards |
| WalletScripts.LockRemoveEffect | wallet/lua.go:40-47 | removing a key deletes it and lowers the total by its coins, leaving the rest of the hash alone |
| WalletScripts.LockRemoveKeepsBalanced | wallet/lua.go:34-48 | the account stays balanced and its locked coins drop by the removed key's coins |
| WalletScripts.LockTransfer | wallet/lua.go:50-82 | a missing source key is "notExists", an existing target key without flag 1 is "exists", both leave the store as it was; the script succeeds exactly in the remaining cases |
| WalletScripts.LockTransferEffect | wallet/lua.go:60-79 | on success the target key and total grow by the source key's coins and the source key is deleted with its total lowered by the same amount; a failure changes nothing |
| WalletScripts.LockTransferConserves | wallet/lua.go:50-82 | between two distinct balanced accounts the transfer keeps both balanced and conserves their combined locked coins |
| WalletScripts.SelfTransferUnbalances | wallet/lua.go:71-79 | transferring a key onto itself in the same account breaks the total-equals-sum invariant (5 coins counted twice then deleted) |
| WalletScripts.WalletTrans2Locker | wallet/lua.go:84-121 | short of coins without bit 4 answers 1, an existing target key without bit 1 answers 2, both changing nothing; on success the history gains a line at its head made of Lua's text for the negated amount, a line break and the sixth argument |
| WalletScripts.WalletTrans2LockerEffect | wallet/lua.go:103-116 | on success the locker key and total grow by the coins and the wallet field shrinks by them; any other answer leaves the store unchanged |
| WalletScripts.WalletTrans2LockerConserves | wallet/lua.go:84-121 | coins leaving the wallet arrive in the locker: wallet sum plus locked coins is conserved and the locker stays balanced |
| WalletScripts.WalletTrans2Wallet | wallet/lua.go:123-154 | a non-positive amount is an error reply, a short wallet without bit 4 answers 1; success happens exactly otherwise and pushes Lua's text of the negated amount onto the payer's history and of the amount onto the payee's |
| WalletScripts.WalletTrans2WalletConserves | wallet/lua.go:147-148 | the two wallets' sums together are unchanged (one wallet's sum when both are the same) |
| WalletScripts.LockerTrans2Wallet | wallet/lua.go:156-179 | a missing lock key answers 1 and changes nothing; otherwise the key is gone, the script answers 0 and the history gains the key's stored decimal and the fourth argument at its head |
| WalletScripts.LockerTrans2WalletEffect | wallet/lua.go:166-174 | on success the wallet field grows by the key's coins and the locker loses the key with its total lowered by the same amount |
| WalletScripts.LockerTrans2WalletConserves | wallet/lua.go:156-179 | wallet sum plus locked coins is conserved and the locker stays balanced |
| WalletScripts.TransToLockerAsWritten | wallet/wallet.go:35-52 | conflicting options fail with ErrConflict before the script runs; otherwise the call reports success whatever the script answered, and the only line it can push is the amount followed by the call's Unix time, which the script takes as its remark |
| WalletScripts.TransToLocker | wallet/wallet.go:35-52 | conflicting options fail with ErrConflict; success is reported exactly when the script answered 0, a short wallet as NoCoins; on success the history's new head is the amount followed by the documented payload (type 1, time, locker account, lock key, remark) |
| WalletScripts.TransToLockerHidesRefusal | wallet/wallet.go:48-51 | an empty wallet paying 10 coins: the code as written reports success with nothing moved, the corrected call reports the refusal |
| WalletScripts.TransToLockerLineUnreadable | wallet/wallet.go:48-49 | the as-written line (amount, then the Unix time) has two fields: ParseHistoryItem answers ErrBadData and a history page shows zero coins at time zero with no remark |
| WalletScripts.TransToLockerLineReads | wallet/codec.go:17-57 | the corrected caller's line parses back to the negated amount, type 1, the time, the locker account, the lock key and the remark, for amounts below 10^14 |
| WalletScripts.WideAmountUnreadable | wallet/lua.go:118 | from 10^14 coins on, whatever follows the amount, the line fails to parse (ErrBadData if it has fewer than six fields, a syntax error otherwise) and a page shows zero coins |
| WalletScripts.TwoFieldLine | wallet/codec.go:24-29 | two single-line parts joined by a line break are refused as bad data and read as an empty item |
| WalletScripts.LineFields | wallet/codec.go:24 | a line has one more break than the text after its amount |
| WalletScripts.TransToWalletAsWritten | wallet/locker.go:92-105 | every call reports success (a missing lock key answers status 1, which is no error reply); a released key's line is its coins followed by the call's Unix time |
| WalletScripts.TransToWallet | wallet/locker.go:92-105 | a missing lock key is reported as NotExists and exactly then nothing changes; otherwise the history's new head is the released coins followed by the documented payload |
| WalletScripts.TransToWalletLineUnreadable | wallet/locker.go:103-104 | the as-written line (coins, then the Unix time) is refused as bad data and read as an empty item |
| WalletScripts.TransToWalletLineReads | wallet/codec.go:17-57 | the corrected caller's line parses back to the released coins, type 1, the time, the locker account, the key and the remark |
| LuaText.Exp10Bounds | wallet/lua.go:118 | the exponent picked for n is the power of ten n lies in |
| LuaText.TrimZeros | wallet/lua.go:118 | the text loses exactly its trailing zeros and keeps everything before them |
| LuaText.ExpForm | wallet/lua.go:118 | the exponent form starts with a digit followed by the point or the 'e', holds an 'e' and no line break |
| LuaText.LuaNumber | wallet/lua.go:118 | an amount prints as its plain decimal exactly when it is below 10^14 in magnitude, and carries a leading minus exactly when negative |
| LuaText.NotDecimal | wallet/lua.go:118 | text with an 'e' after its first character is never a decimal |
| LuaText.LuaNegated | wallet/lua.go:118 | negating a nonzero amount prints as the Lua text of its negation (zero prints as "-0") |
| LuaText.LuaNumberNoNewline | wallet/lua.go:118 | neither rendering holds a line break, so the amount is always the line's first field |
| LuaText.LuaNumberReads | wallet/lua.go:118 | below 10^14 in magnitude strconv.ParseInt reads either rendering back as the number, "-0" included |
| LuaText.LuaNumberUnreadable | wallet/lua.go:118 | from 10^14 on strconv.ParseInt refuses the rendering with a syntax error |
| LuaText.ExpFormUnreadable | wallet/lua.go:118 | a digit followed by '.' or 'e' is a syntax error for ParseUint |
| Ledger.WriteKey | wallet/lua.go:21-29 | writing a lock key moves the locked coins (sum of all but the total field) by the key's change |
| Ledger.DeleteKey | wallet/lua.go:45-47 | deleting a lock key lowers the locked coins by its value |
| Ledger.SetStep | wallet/lua.go:19-29 | writing a key and moving the total by the same change keeps the account balanced |
| Ledger.DelStep | wallet/lua.go:40-47 | deleting a key and lowering the total by its value keeps the account balanced |
| Ledger.MoveStep | wallet/lua.go:60-79 | moving one key's coins between two balanced accounts keeps both balanced and conserves the locked coins |
| Ledger.PayInStep | wallet/lua.go:108-116 | paying coins from a wallet field into a lock key conserves wallet sum plus locked coins |
| WalletHistory.Window | wallet/history.go:48 | LRANGE with redis's start/stop rules, including negative indices counted from the tail, never yields more than the list |
| WalletHistory.WindowHead | wallet/history.go:31-37 | for offset and count from the head, the window is the slice from offset to offset+count, clipped to the list |
| WalletHistory.WindowTail | wallet/history.go:39-45 | for the ascending call's negative indices, the window is the count entries ending offset entries before the tail, clipped to the list |
| WalletHistory.TrimTail | wallet/history.go:112 | LTRIM 0 (-k-1) drops exactly the last k entries |
| WalletHistory.GetItems | wallet/history.go:31-37 | the items are the parsed entries offset .. offset+count-1 from the head (newest first), with count 0 meaning 10000 |
| WalletHistory.GetItemsReadsEntries | wallet/history.go:55-62 | a line in the documented layout, the coins' decimal in front of a BuildHistoryPayload payload, reads back as its coins, time and remark |
| WalletHistory.ReverseLoopAsWritten | wallet/history.go:65-69 | the loop as written, running idxB up to len-2, equals swapping only the two ends |
| WalletHistory.ReverseLoop | wallet/history.go:65-69 | the loop stopped at the middle reverses the items |
| WalletHistory.SwapEndsShort | wallet/history.go:65-69 | for up to three items, the loop as written does reverse them, which is what short test lists see |
| WalletHistory.GetItemsASCAsWritten | wallet/history.go:39-45 | as written, the ascending read returns the tail window with only its two ends swapped |
| WalletHistory.GetItemsASC | wallet/history.go:39-45 | the tail window offset .. offset+count-1 counted from the oldest entry, reversed into oldest-first order |
| WalletHistory.AscendingOrderBroken | wallet/history.go:65-69 | with four entries whose middle two differ, the as-written ascending read differs from the reversal |
| WalletHistory.InnerPairStays | wallet/history.go:66-68 | with four or more items whose second and second-to-last differ, swapping the ends is not a reversal |
| WalletHistory.StorePage | wallet/history.go:100-110 | storing a page oldest first stops at the first failing Store call: the count stored, that failure, and only successes before it |
| WalletHistory.RoundOf | wallet/history.go:85-112 | one round reads the list's last thousand lines, stores them from the oldest until a call fails, and LTRIM 0 (idx-len) keeps exactly the lines before the stored ones |
| WalletHistory.Trans2CodeStorage | wallet/history.go:74-127 | no storage is ErrFailed with nothing read or trimmed; otherwise the storage receives the oldest lines oldest first and the list keeps every line not stored, exactly those unless an LTRIM failed; ErrStop is never reported |
| WalletHistory.Drain | wallet/history.go:85-127 | a failed LRANGE in the first round ends the drain with that error, nothing stored and the list unchanged; ErrStop is never reported |
| WalletHistory.DrainPage | wallet/history.go:85-127 | one round the connection survives: the stored lines are the list's last k in reverse, exactly those are trimmed, and the loop goes on from the shortened list only when the page stored fully |
| WalletHistory.TrimFailsUnfold | wallet/history.go:112-116 | in the round whose LTRIM fails the list is unchanged, the page's accepted lines were stored, and the error is the store's failure if any, otherwise the LTRIM's (a stop request still ends quietly) |
| WalletHistory.DrainShape | wallet/history.go:85-127 | whatever the storage answers and wherever the connection fails, the lines stored are an oldest-first prefix of the history and the list keeps at least the lines not stored; without a failed LTRIM it keeps exactly those |
| WalletHistory.DrainAll | wallet/history.go:85-127 | a storage that accepts everything, over a connection that never fails, receives the whole history oldest first and leaves the list empty, without error |
| WalletHistory.TrimFailureKeepsPage | wallet/history.go:100-116 | with an accepting storage and a failing first LTRIM, the oldest page (up to 1000 lines) is stored, the error is reported and the list still holds every line |
| WalletHistory.RetryRestores | wallet/history.go:85-127 | after that failure the next drain hands the storage the same lines again, so each is stored twice |
| WalletHistory.StopIsQuiet | wallet/history.go:118-122 | a storage answering ErrStop after n lines ends the drain without error, with exactly those n lines stored and trimmed |
| Ledger.WalletPays | wallet/lua.go:116 | taking coins off one wallet field takes exactly that many off the wallet's sum |
| WalletCodec.RoundTripText | wallet/codec.go:17-57 | any single-line coins text that strconv reads as a number, in front of a built payload, parses back to that number and the payload's fields |
| Numeral.ParseDigitsPrefixErr | wallet/codec.go:30 | once a prefix of the digits fails to parse, the whole text fails with the same error |
| Numeral.DecimalDigits | wallet/codec.go:30 | every character of a base-ten numeral is a digit from 0 to 9 |
| Calendar.DaysInMonth | statistic/memdate/date_data.go:47 | the number of days the month loop visits: 28 to 31, and February has 29 exactly in leap years |
| Calendar.Weekday | statistic/memdate/date_data.go:48 | the weekday of a proleptic Gregorian date, Sunday being 0 |
| Calendar.Quarter | statistic/memdate/date_data.go:121 | the quarter of a month, from 1 to 4, spanning its three months |
| Calendar.QuarterMonths | statistic/memdate/date_data.go:85-98 | quarter s holds exactly the three months a new season is built with |
| Calendar.WeekdayShift | statistic/memdate/date_data.go:47-48 | stepping a day forward k times moves the weekday k places round the week |
| Calendar.MarchYearLength | statistic/memdate/date_data.go:47 | the day count between consecutive March-based years is 366 exactly when the later year is a leap year |
| Calendar.NextMonthFollows | statistic/memdate/date_data.go:47 | the first of the next month, or of January next year, is the day after the last day of the month |
| Calendar.KnownWeekdays | statistic/memdate/date_data.go:48 | the weekday function agrees with the calendar on 1970-01-01 (a Thursday) and 2024-01-01 (a Monday) |
| MemDateKeys.WeekdayFrom | statistic/memdate/date_data.go:128-129 | the weekday of day d counted from the weekday of the first, always 0 to 6 |
| MemDateKeys.WeekFrom | statistic/memdate/date_data.go:126-140 | the week-of-month counter, which starts at 1 and grows after every Sunday, is at least 1 |
| MemDateKeys.WeekNo | statistic/memdate/date_data.go:126-140 | a closed form of the week number, at least 1 |
| MemDateKeys.WeekFromClosed | statistic/memdate/date_data.go:126-140 | counting Sundays day by day gives the closed form |
| MemDateKeys.WeekdayOfDay | statistic/memdate/date_data.go:128-129 | the weekday of a day is the one counted on from the first of its month |
| MemDateKeys.KeysOf | statistic/memdate/date_data.go:119-143 | the keys of a valid date carry its year, its month and the month's quarter, a week number of at least 1 and a weekday from 0 to 6 |
| MemDateKeys.GetKeysForAt | statistic/memdate/date_data.go:119-143 | the loop over the month's days finds the day exactly when it exists, and then returns the keys of the date |
| MemDateKeys.KeysOfDecember21 | statistic/memdate/date_data.go:119-143 | 2023-12-21 is in quarter 4, month 12, week 4, a Thursday |
| MemDateKeys.WeeksFromFriday | statistic/memdate/date_data.go:126-140 | in a month that starts on a Friday, day 21 is in week 4 and is a Thursday |
| MemDateKeys.WeekMonotone | statistic/memdate/date_data.go:137-139 | the week number never falls as the days go on |
| MemDateKeys.WeekSevenLater | statistic/memdate/date_data.go:137-139 | seven days later is exactly one week later |
| MemDateKeys.WeekBound | statistic/memdate/date_data.go:126-140 | the week number of day d is at most 1 + (d + 5) / 7, so a month has at most six weeks |
| MemDateKeys.KeysInjective | statistic/memdate/date_data.go:43-65 | two different days of one month never share their week and weekday, so no day overwrites another in the month's table |
| MemDateKeys.SundayBetween | statistic/memdate/date_data.go:137-139 | a Sunday from day a on and before day b puts b in a later week than a |
| MemDateKeys.KeysInjectiveOrdered | statistic/memdate/date_data.go:43-65 | the same, for the earlier day first |
| MemDateKeys.WithinAWeek | statistic/memdate/date_data.go:48 | days less than a week apart fall on different weekdays |
| MemDateKeys.WeekdayStep | statistic/memdate/date_data.go:48 | k days later is k weekdays later, round the week |
| MemDate.FileOneMore | statistic/memdate/date_data.go:47-65 | filing one more day under its week and weekday keeps every earlier day filed and files nothing else |
| MemDate.FileDaysFacts | statistic/memdate/date_data.go:47-65 | after filing the first c days, exactly those days are filed, each under its own week and weekday with a zero total |
| MemDate.NewMonthData | statistic/memdate/date_data.go:33-78 | a new month has a zero total, files every day of the month under its week and weekday with a zero total, and files nothing else |
| MemDate.MonthFilesEveryDay | statistic/memdate/date_data.go:33-78 | the month built for year y and month m files every day of the month under the week and weekday its date keys name, with a zero total, and every entry it files is such a day |
| MemDate.SeasonOf | statistic/memdate/date_data.go:85-98 | a new season has a zero total and holds exactly the three new months of its quarter |
| MemDate.YearOf | statistic/memdate/date_data.go:105-117 | a new year has a zero total and holds exactly seasons 1 to 4, each freshly built |
| MemDate.YearOfFacts | statistic/memdate/date_data.go:33-117 | a new year has a path for every day of the year, only for days of the year, and every total in it is zero |
| MemDate.MustYear | statistic/memdate/statistics.go:198-206 | afterwards the key has the year; an existing year is kept as is, a missing one is freshly built; every other key and year is untouched; a well-formed store stays well formed |
| MemDate.BumpYear | statistic/memdate/statistics.go:66-79 | combining a record into a day changes the totals of that day, its week, month, season and year and nothing else, keeping the tree's shape and day numbers |
| MemDate.BumpKeepsCovers | statistic/memdate/statistics.go:66-79 | combining keeps every day of the year on its path |
| MemDate.ReplaceYear | statistic/memdate/statistics.go:66-79 | replacing a year by one covering its days keeps the store well formed |
| MemDate.SetDayData | statistic/memdate/statistics.go:59-86 | the call succeeds exactly when the date exists, and a failure changes nothing; success keeps the store well formed, touches no other key or year and combines the record along the date's path in the year |
| MemDate.GetYearOn | statistic/memdate/statistics.go:88-104 | a year's total exists exactly when the key has that year |
| MemDate.GetSeasonOn | statistic/memdate/statistics.go:106-127 | a season's total exists exactly when the date exists and the key has its year |
| MemDate.GetMonthOn | statistic/memdate/statistics.go:129-150 | a month's total exists exactly when the date exists and the key has its year |
| MemDate.GetWeekOn | statistic/memdate/statistics.go:152-173 | a week's total exists exactly when the date exists and the key has its year |
| MemDate.GetDayOn | statistic/memdate/statistics.go:175-196 | a day's total exists exactly when the date exists and the key has its year |
| MemDate.SameKeysSameDay | statistic/memdate/date_data.go:119-143 | two valid dates of one year with the same month, week and weekday are the same date |
| MemDate.SetThenGetDay | statistic/memdate/statistics.go:59-196 | after recording on a day, that day reads its old total combined with the record, and every other key or date reads what it did once the year exists |
| MemDate.SetThenGetWeek | statistic/memdate/statistics.go:59-173 | after recording on a day, every day of its week reads the week's old total combined with the record, and other weeks are unchanged |
| MemDate.SetThenGetMonth | statistic/memdate/statistics.go:59-150 | after recording on a day, the days of its month read the month's total combined with the record, and other months are unchanged |
| MemDate.SetThenGetSeason | statistic/memdate/statistics.go:59-127 | after recording on a day, the days of its quarter read the season's total combined with the record, and other seasons are unchanged |
| MemDate.SetThenGetYear | statistic/memdate/statistics.go:59-104 | after recording on a day, the key's year total is combined with the record, and other keys and years are unchanged |
| MemDate.FreshYearReadsZero | statistic/memdate/statistics.go:198-206 | a year created on demand reads zero at every level for any of its days |
| MemDateSums.WeekBumpSums | statistic/memdate/statistics.go:70-73 | with additive totals, a week whose total is the sum of its days still is after a record is added to one day |
| MemDateSums.MonthBumpSums | statistic/memdate/statistics.go:70-75 | a month whose totals sum level by level still does after a record is added |
| MemDateSums.SeasonBumpSums | statistic/memdate/statistics.go:70-77 | a season whose totals sum level by level still does after a record is added |
| MemDateSums.YearBumpSums | statistic/memdate/statistics.go:66-79 | a year whose totals sum level by level still does after a record is added |
| MemDateSums.FiledSums | statistic/memdate/date_data.go:43-75 | weeks filled with zero days sum |
| MemDateSums.MonthOfSums | statistic/memdate/date_data.go:33-78 | a new month sums |
| MemDateSums.YearOfSums | statistic/memdate/date_data.go:105-117 | a new year sums |
| MemDateSums.SetDayKeepsSums | statistic/memdate/statistics.go:59-86 | with additive totals, recording keeps every total in the store equal to the sum of the totals below it |
| LifeCost.Combine | statistic/memdate/ex/consume_data.go:29-46 | an adding record adds its four counters to the total, a replacing record replaces them, and any other type leaves the total alone |
| LifeCost.AddsCommute | statistic/memdate/ex/consume_data.go:33-37 | two adding records give the same total in either order |
| LifeCost.ReplaceForgets | statistic/memdate/ex/consume_data.go:38-42 | a replacing record gives the same total whatever was combined before it |
| LifeCost.AddedRunSums | statistic/memdate/ex/consume_data.go:33-37 | a run of adding records adds up their counters |
| LifeCost.LastReplaceWins | statistic/memdate/ex/consume_data.go:38-42 | once a run holds a replacing record, the starting total no longer matters |
| LifeCost.OthersIgnored | statistic/memdate/ex/consume_data.go:32-43 | records of any other type change nothing |
| LifeCost.DayAddsUp | statistic/memdate/ex/consume_data.go:29-46 | recording an adding record adds its counters to the day's and the year's totals |
| TimeUsage.ScanFrom | usage/time.go:95-112 | the scan over the recorded updates keeps the index of the last update charged within the list |
| TimeUsage.Statistics | usage/time.go:63-121 | with updates recorded, the index from which a clean keeps them is a position in the list |
| TimeUsage.DoStatistics | usage/time.go:63-121 | the method's durations are those of the reference scan; they add up to exactly the window's length; without clearing, or with no updates, the updates are kept; clearing keeps them from the last update charged |
| TimeUsage.ChargeTotal | usage/time.go:73-86 | charging a duration to a status, new or not, raises the total of all durations by exactly that duration |
| TimeUsage.ChargeFacts | usage/time.go:73-86 | charging a status adds it if it was missing, adds the duration to what it had, stores the data on its first charge, and leaves every other status as it was |
| TimeUsage.MergeChoices | usage/time.go:10-16 | charging a status twice keeps the newer data with MergeReplace and the data it had first with MergeIgnore |
| TimeUsage.NilMergeReplaces | usage/time.go:64-66 | without a merge function, charging a status twice keeps the newer data |
| TimeUsage.ScanTotal | usage/time.go:95-112 | each step of the scan moves the last charged time forward by exactly what it charges |
| TimeUsage.WindowTotal | usage/time.go:63-121 | the durations over all statuses add up to the window's length, tsE - tsB |
| TimeUsage.ScanKeepsLast | usage/time.go:95-112 | the last charged time stays inside the window and is the window start or the time of the update at the kept index |
| TimeUsage.KeptFromLastCharged | usage/time.go:88-118 | the clean keeps the updates from the last one charged, which lies in the window, or from the first when none was |
| TimeUsage.ScanStopsAt | usage/time.go:103-105 | an update at or after the window's end stops the scan, so nothing after it matters |
| TimeUsage.IgnoresFrom | usage/time.go:103-105 | the statistics ignore every update from the first one at or after the window's end on |
| TimeUsage.BeforeWindow | usage/time.go:96-101 | updates before the last charged time only set the starting status and data |
| TimeUsage.AllBeforeWindow | usage/time.go:88-114 | when every update precedes the window, the whole window goes to the last update's status with its data, or to status 0 with no data when there are none |
| TimeUsage.FirstInWindow | usage/time.go:95-112 | the first update in the window charges the time from the window start to it to the status in force before it |
| TimeUsage.GetStatusStatisticsEx | usage/time.go:135-149 | one answer per asked status, present exactly when the statistics hold that status and then equal to its usage; without clearing, or with no updates, the updates stay; clearing keeps them from the last update charged |
| TimeUsage.TwoUpdates | usage/time.go:63-121 | updates at 10 and 20 over the window 15 to 30 charge 5 to the first status and 10 to the second |
| AvgData.Gen | curve/common.go:16-21 | a new average holds one sample with that value |
| AvgData.Combine | curve/common.go:23-30 | combining adds one sample and its value to the sum |
| AvgData.Clone | curve/common.go:32-37 | a clone equals the original |
| AvgData.Calc | curve/common.go:39-43 | the average is the sum divided by the count rounded towards minus infinity, as the Euclidean division of big.Int does for a positive count |
| AvgData.CalcRoundsDown | curve/common.go:39-43 | -3 over two samples averages to -2, where a truncating division would give -1 |
| AvgData.Accumulate | curve/common.go:16-30 | combining a run of samples counts them and sums them |
| AvgData.SumBetween | curve/common.go:23-30 | bounds on each sample bound the sum |
| AvgData.CalcBetween | curve/common.go:39-43 | the average lies between the smallest and largest bound of the samples, so the result fits in an int64 when every sample does |
| AvgData.CalcConstant | curve/common.go:16-43 | equal samples average to that sample |
| Hashrate.Split | curve/curve-hashrate/system.go:44 | strings.Split on one character gives one more part than there are separators, none containing it |
| Hashrate.SplitJoin | curve/curve-hashrate/system.go:44 | joining the parts with the separator gives the key back |
| Hashrate.SplitNone | curve/curve-hashrate/system.go:44-47 | a key without the separator is one part and so is skipped |
| Hashrate.SplitFirst | curve/curve-hashrate/system.go:44 | text without the separator, the separator and more text split into that text and the split of the rest |
| Hashrate.SuffixesExclusive | curve/curve-hashrate/system.go:54-66 | no account ends in both ".cs" and ".cs_buildin", so the two branches never compete |
| Hashrate.ClassOf | curve/curve-hashrate/system.go:54-66 | an account's rate goes to the Cs field exactly when it ends in ".cs", to BuildInCs exactly when it ends in ".cs_buildin", and otherwise to the miner field |
| Hashrate.AddTo | curve/curve-hashrate/system.go:55-65 | adding to a field of a point changes that field by the amount and nothing else |
| Hashrate.Step | curve/curve-hashrate/system.go:42-66 | a key that does not split into two parts changes nothing; a usable one creates or keeps the all, coin and pool points of its proxy id and no others |
| Hashrate.AllPointSums | curve/curve-hashrate/system.go:15-76 | the all point exists exactly when some key is usable, and each of its fields is the sum of the rates of that class |
| Hashrate.MustAddAt | curve/curve-hashrate/system.go:18-28 | adding through the create-on-demand lookup changes only the named field of the named point |
| Hashrate.StepAt | curve/curve-hashrate/system.go:42-66 | one entry changes each point's fields by exactly what it contributes to that point |
| Hashrate.PointExt | curve/curve-hashrate/system.go:69-73 | points with the same fields and event are the same point |
| Hashrate.StepsCommute | curve/curve-hashrate/system.go:42-66 | two entries give the same points in either order |
| Hashrate.ExplainSnoc | curve/curve-hashrate/system.go:42-66 | explaining one more entry is one more step |
| Hashrate.ExplainCovers | curve/curve-hashrate/system.go:15-76 | every entry whose key has one ':' and a proxy id that parses gives a point to the overall key, its coin key and its pool key |
| Hashrate.ExplainOnly | curve/curve-hashrate/system.go:15-76 | every point belongs to the overall, coin or pool key of such an entry; entries without a ':' add nothing |
| Hashrate.SwapLast | curve/curve-hashrate/system.go:42-66 | the last two entries can be swapped |
| Hashrate.SnocAlike | curve/curve-hashrate/system.go:42-66 | entry lists that explain alike still do after the same entry is appended |
| Hashrate.MoveToEnd | curve/curve-hashrate/system.go:42-66 | an entry can be moved to the end without changing the points |
| Hashrate.OrderIndependent | curve/curve-hashrate/system.go:15-76 | the points depend only on the multiset of entries, so Go's random map iteration order cannot change the result |
| Hashrate.EmptyPoints | curve/curve-hashrate/system.go:86-92 | a new point is empty; emptiness ignores the built-in rate, so adding a non-zero rate to an empty point leaves it empty exactly when the rate is a built-in one |
| Hashrate.IsEmptyPoint | curve/curve-hashrate/system.go:90-92 | a point is empty exactly when every rate other than the built-in cs rate is zero |
| Hashrate.NewImmutableData | curve/curve-hashrate/system.go:82-84 | a new sample averages to its value |
| Hashrate.ClassifiesSample | curve/curve-hashrate/system.go:43-66 | "12:w.cs" splits into the proxy id and account, and w.cs, w.cs_buildin and w are classed Cs, BuildInCs and miner |

## Left out

- Persistence: the MemWithFile wrapper, JSON/YAML encoding, the key-value store, and the statistics load, save and Export. Storing a value is modelled as replacing it; a storage failure is a boolean or fault-position parameter.
- Redis plumbing in `wallet/locker.go`, `wallet/wallet.go` and `account/impls/redisimpls`. Only the Lua script semantics, the arguments `TransToLocker` and `TransToWallet` hand to their scripts, the status checks, and the LRANGE/LTRIM index rules are modelled.
- `BuildHistoryValuePayload` (`wallet/locker.go:104`) is not part of this model. The corrected `WalletScripts.TransToWallet` uses `BuildHistoryPayload`'s layout with the locker account, the key and the remark.
- WalletScripts.WalletTrans2Locker: amounts are exact integers. Above 2^53 Lua's `tonumber` rounds the amount to a double; that rounding is not modelled.
- WalletScripts.WalletTrans2Wallet: amounts are exact integers, as for WalletTrans2Locker.
- WalletScripts.TransToLockerLineReads: the round trip holds only below 10^14 coins. From there on Lua prints the amount with an exponent, which `WalletScripts.WideAmountUnreadable` states.
- Concurrency: the syncer mutex and snapshot goroutine, `sync.Map`, locks and watchdogs. The snapshot request channel is a bounded queue that drops a request when full.
- JSON decoding of plugin payloads and snapshot data. A decoded payload is carried as a value, and an undecodable one as `None`.
- The demo plugin's `Ds[0]` is modelled as the whole payload, as in the tests, which send one segment.
- The record cache's GetRecord, SetRecord and DelRecord, and the log pool's SetSnapshot and GetSnapshot. These are plain map reads, updates and removals, written inline where the reducer, the syncer and the builder use them.
- Time zones and daylight saving. The calendar is the proleptic Gregorian calendar with whole days, and times are integers.
- Snowflake ids, uuids and `time.Now` are parameters.
- Password hashing, JWT tokens and the account property data (`account/impls/fmaccountstorage/storage.go:443-499`); the advance configuration is carried as its encoded bytes, since its type is defined outside the modelled files.
- The order of `ListUsers`, which follows Go's map iteration; the model states the set of users listed.
- 64-bit wrap-around of amounts, balances, counters and statistics totals, except for the sequence ids and cursors and the parsed int64 fields. No source path reaches the int64 limits in these ledgers without first exceeding realistic balances.
- Hashrate.Step: requires the proxy id before ':' to parse as an int64, because the source panics otherwise.
- OperatorSet.TryConsumeAmount: its contract states only that the loop returns the reference run `Chain`; the properties of a run are stated once, on `OperatorSet.ChainFacts` and the other `Chain*` lemmas.
- TrafficPackage.ConsumeAmountSpec: assumes a valid store (unique package ids, no negative left amount), which `PackageStore.AddPackageKeepsValid` and `PackageStore.ConsumeCheckedKeepsValid` maintain.
- TrafficPackage.TryConsumeAmount: its storage failures are injected at one package position, rather than at every possible call.
- DailyBonus.TryConsumeAmount: it states the amount consumed only for an entry with no negative balance, which the corrected operator maintains.
- AccountStore.ListUsers: it takes Go's map iteration order as a sequence of the ids, each listed once.
- Reducer.SnapshotSeedsPlugins: holds when the type-table plugin is the only one cached, as in the source's registries. Both plugin variants export under the one ID `sync-table-type`, so seeding would merge the records of several plugins.
- SyncRead.ReadLogs: when the final pool fails, the result is only the error. The source also returns the logs gathered before it; a caller that checks the error does not see them.
- Nil generator functions in the plugin registry (`syncer/impls/snapshotpluginmanager.go:33-34`). `init` calls every generator, so a nil one panics; `PluginManager.Generator` has no value for it, and its `NilGen` is a generator that yields no plugin.
- The console logger, `logger.Fatal` on a missing storage, and the test helpers other than the reconciling client (`syncer/syncer_test/utclient.go`).

## Findings

| source | as written | input that shows it | evidently intended | confidence | as-written member | corrected member |
|---|---|---|---|---|---|---|
| syncer/impls/mf/logpool.go:58 | the pool stamps a log's SeqID with its index, but recovery (`syncer/syncer.go:173-180`) compares the stored log with the unstamped log in the marker | a crash after the pool append at index 1, before the counter save | the landed log is counted once and the counters move past it | not executed | Syncer.AsWrittenDropsLandedLog | Syncer.RecoverLanded |
| syncer/syncer.go:173-180 | after that recovery the counter stays below the pool length, so the next append is refused and moves neither the pools nor the counters | the same crash, then any append to that pool | appends continue after the landed log | not executed | Syncer.AsWrittenWedged | Syncer.AppendKeepsInv |
| syncer/snapshot.go:61-68 | a missing predecessor snapshot is replaced by an empty seed, and the snapshot is stored anyway | pool 0 holds "a" and pool 1 holds "b", with no snapshot of pool 0 | pool 1's snapshot covers pools 0 and 1, or is not built | not executed | SnapshotBuilder.AsWrittenLosesHistory | SnapshotBuilder.BuildKeepsSnapInv |
| syncer/impls/bookkeeping/typetable.go:289-307 | Del's sibling test counts transferred rows, so the valid-parent set drifts from the one AfterLoad derives | two children of "p", both transferred away, then Del of "p" | "p" can be deleted once it has no live children | not executed | TypeTable.DelAsWrittenDrifts | TypeTable.DelReleasesParent |
| syncer/impls/bookkeeping/typetable.go:462-464 | Change marks the new parent valid even when the changed row is transferred, which AfterLoad does not count | row "a" transferred to "p", then a Change of "a" naming parent "p" | the set stays the one AfterLoad derives from the rows | not executed | TypeTable.ChangeAsWrittenDrifts | TypeTable.ChangeKeepsInv |
| syncer/impls/bookkeeping/typetable.go:88-364 | TestAdd, TestDel and TestChange return with ok already true before their last checks | a child used as parent, a used label, a parent with children | each test predicts its operation | not executed | TypeTable.TestsAsWrittenMispredict | TypeTable.TestsPredict |
| trafficpackage/dailybonusoperator.go:55 | `bonusValue -= n` passes a negative amount to ConsumeBonus, which then raises the kept bonus | 10 kept, no day's bonus, consume 3 | the kept bonus falls by 3 | not executed | DailyBonus.ConsumeAmountGrowsBonus | DailyBonus.ConsumeAmount |
| trafficpackage/impl/fmstorage/storage.go:104-123 | Consume checks each line against the old amount, so two lines naming one package both pass | a package with 10 left and two lines taking 6 each | the plan is refused; no package goes negative | not executed | PackageStore.ConsumeOverdraws | PackageStore.ConsumeCheckedKeepsValid |
| account/impls/fmaccountstorage/storage.go:408-413 | the stored `*TokenInfo` is type-asserted to `time.Time`, which always fails, so renewal never happens | any stored token with a positive renew duration | the token's expiry moves back by the duration | not executed | AccountStore.RenewNeverExtends | AccountStore.RenewExtends |
| wallet/history.go:66-68 | the reverse loop runs to len-1, swapping every inner pair twice | four items a, b, c, d, read ascending as d, b, c, a | the items oldest first | not executed | WalletHistory.AscendingOrderBroken | WalletHistory.GetItemsASC |
| wallet/wallet.go:48-51 | only the transport error is checked, so the script's refusals (status 1 or 2) read as success | an empty wallet paying 10 coins into a locker | a refusal is reported as an error | not executed | WalletScripts.TransToLockerHidesRefusal | WalletScripts.TransToLocker |
| wallet/wallet.go:48-49 | the Unix time is passed sixth, where walletTrans2LockerScript reads its history remark (`wallet/lua.go:94`); the payload, passed seventh, is never read | any transfer of 10 coins at time t pushes "-10\nt", which ParseHistoryItem refuses | the line carries the documented layout and reads back | not executed | WalletScripts.TransToLockerLineUnreadable | WalletScripts.TransToLockerLineReads |
| wallet/locker.go:103-104 | the Unix time is passed fourth, where lockerTrans2WalletScript reads its history member (`wallet/lua.go:164`); the payload, passed fifth, is never read | releasing a key of 10 coins at time t pushes "10\nt", which ParseHistoryItem refuses | the line carries the documented layout and reads back | not executed | WalletScripts.TransToWalletLineUnreadable | WalletScripts.TransToWalletLineReads |
