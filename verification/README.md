# kiss-cache, modelled in Dafny

kiss-cache garbage-collects a flat Nix binary cache while writers upload to it. This project
models its lock protocol, its dependency scanner, its closure cache, its marker walk and its
prune, and proves that together they keep the promise the tool is for: no prune ever breaks a
closure that a marker points at. `spec/prune.als` states that promise for 4 paths, one writer, one
pruner, 18 steps and an atomic sweep; here it holds for any number of paths, writers, pruners and
gcroots directories, with a sweep that deletes one file at a time, directory reads that see one
entry at a time, removals that fail, markers that vanish at any moment and a crash before any step.

`dafny verify dfyconfig.toml` checks everything.

## How the pieces fit

| module | models |
|---|---|
| `StoreHashes`, `NarInfos` | store hashes and paths, narinfo text, parsing and rendering |
| `Utf8Text` | what the text functions mean in characters, lines and pairs |
| `ClosureCache` | the binary file of parsed metadata |
| `Reachability`, `Closures` | what a scan must find, with and without a closure cache |
| `DepScan`, `Scanner` | the worker pool as a transition system, and `scan` as loops over it |
| `LockProtocol`, `LockFiles` | the lock protocol as a transition system, and `acquire_exclusive`, `put_lock_local`, the multi-directory locking and `lock-guard.js` as code over it |
| `CacheProtocol`, `CacheSafety`, `MarkerSafety`, `MarkerArchives`, `CacheRuns` | the whole system: processes, disk, markers and closure cache; its invariants; the results over whole runs |
| `BrokenRuns` | runs on which a promise fails where its condition does |
| `Publishing` | `with_lock::run` and its refresher thread, with time |
| `GcRoots`, `PruneRun` | the marker walk, the replacement of a marker, and the prune on real file names and the real cache file |
| `Wrappers`, `Sums` | optional values, sums over sequences |

The imperative code acts on the transition systems: each file operation of `LockFiles` is one event
of `LockProtocol` with any number of other agents' events between two of them, and each channel
operation of `Scanner` is one step of `DepScan` with any number of workers' steps in between.
What file operations, the clock and other processes do is chosen by small methods that record what
fails (`faults`, `refusals`, the log of removals, and `cuts` for a sweep cut short by a crash or by a
directory or an entry that cannot be read), so that each result says what follows when
nothing fails. Each definition the results rest on has a result of its own on text, lists or paths
written out: `...AreSpelled`, `...ByPath`, `...ByName`.

`PruneRun.SweepRefinesProtocol` ties the prune on file names, both its passes and the cache file it
writes, to the sweep of `CacheProtocol`.

## Hypotheses

The code does not discharge these; the model states each as a guard or a precondition.

- Live means fresh. Whoever reads, uploads, sweeps or writes a marker does so only while its locks
  exist and are less than `STALE_AFTER` old (`LockProtocol.Live`). A pruner never refreshes its locks,
  so its run has to fit. `LockProtocol.StaleHolderIsPassed` shows that the bound is needed to the
  second. `Publishing` derives it from bounds on a writer's calls for its marker, and for its uploads up
  to a failed refresh; for uploads after one it stays a hypothesis.
- Names tell holders apart (`LockFiles.Naming`): concurrent writers use distinct job names, pruner ids
  are unique, and a name begins with `prune-` if and only if it is a pruner's. A writer's lock lies in
  the directory of its marker.
- A marker lies directly in a configured gcroots directory, and every pruner is given all of them.
- A remote writer's guard check and the creation of its lock are one step; local writers need no such
  assumption.
- `nix copy` freezes the set of paths to skip when it starts, uploads references before referrers
  (a path may refer to itself) and an archive before its narinfo.
- Metadata fits the codec: at most 65535 references, and a URL that is absent or of 1 to 65535 bytes
  (`ClosureCache.Fits`).
- Every narinfo on disk can be read and is UTF-8 (in `CacheProtocol`, whose disk maps hashes to metadata;
  `PruneRun` and `DepScan` have unreadable files).
- A store hash has one metadata for ever (only for the marker results, not for the closure cache's).

## Where the code falls short of its promise

Each is the code's behaviour, kept as it is, with the exact condition under which the promise holds.

- A reachable narinfo that exists is deleted if it is neither cached nor readable UTF-8
  (`PruneRun.UnreadableIsSwept`).
- What does not fit the codec is lost to the next prune, which sees every narinfo as the codec stores it
  (`CacheSafety.SecondPruneSeesStored`): it finds the same closure with the same metadata if and only if
  all of it fits (`CacheSafety.SecondScanIsFirst`). References beyond the 65535th are no longer followed,
  so what only they reach is deleted (`CacheSafety.SecondPruneKeepsStoredRefs`), and a reachable archive
  whose URL is longer than 65535 bytes is deleted (`PruneRun.LongUrlLosesArchive`).
- `spec/prune.als` follows references only; the scanner also follows derivers. A completed sweep leaves all
  references in place if and only if the derivers it keeps were whole, in every run
  (`CacheRuns.CompletedSweepLeavesRefs`). After an interrupted sweep a deriver can be left without its
  references and become reachable again (`BrokenRuns.DeriverDangles`, a run from a cache in order). The
  comment in `spec/prune.als:338-339` that a crashed pruner has deleted nothing does not hold of a sweep
  file by file.
- After a failed removal in the first pass the second pass goes on, and can take the archive of a narinfo
  that stayed if and only if no kept narinfo shares it (`CacheRuns.SecondPassIsSafeIfShared`). Markers keep
  all their narinfos and archives even so (`CacheRuns.NoBrokenClosure`, `CacheRuns.ServedMarkerStays`). But a
  later writer skips the narinfo as present, and its marker can land without the archive
  (`BrokenRuns.StuckNarinfoBreaksMarker`): all markers are served at all times if and only if each lands on
  skipped paths that have their archives (`CacheRuns.MarkersServedIfSkippedServed`).
- A failed refresh stops the marker, not the command, which may go on uploading under a stale lock
  (`Publishing.CommandMayOutliveLock`). That takes a failed refresh if and only if
  `REFRESH_INTERVAL` + 2 refresh calls < `STALE_AFTER` (`Publishing.CommandIsCovered`); the marker is safe
  if and only if its own write fits in besides (`Publishing.BoundIsExact`).
- Comments the code contradicts: `src/closure_cache.rs:10-12` and `src/dep_scan.rs:41-42` say that cached
  entries are not checked against the disk (`PruneRun.GoneMeansGone` shows that they are);
  `src/lock.rs:16-17` and `src/with_lock.rs:28` say locks are refreshed at half of `STALE_AFTER` (it is a
  sixth, and pruners' locks are not refreshed at all).

## Model

| member | source | states |
|---|---|---|
| `CacheRuns.NoBrokenClosure` | spec/prune.als:322-348 | in every state of every run, whatever removals failed, following references from any marker finds every narinfo on disk; as long as no first pass has left an archive at risk no narinfo at all lacks its archive; while the cache is tidy no reference dangles |
| `CacheRuns.WholeByPath` | spec/prune.als:44-48 | that promise path by path: no way from a marker along the `references` lists ends at a missing narinfo |
| `CacheRuns.ServedByPath` | spec/prune.als:344-348 | nor, where archives are promised, at a narinfo whose archive is missing |
| `CacheRuns.ServedMarkerStays` | src/prune.rs:145-187 | in every run, a marker whose whole closure has its archives keeps them through every step of every pruner and writer, whatever removals failed, until it is replaced or dropped |
| `CacheRuns.MarkersStayServed` | spec/prune.als:322-348 | in every run, all markers have had all their archives so far if and only if each had them when it landed |
| `CacheRuns.MarkersServedIfSkippedServed` | spec/prune.als:235-303 | the same, if and only if at each landing every path the writer skipped as present and the marker needs had its archive |
| `MarkerArchives.LandsServedIfSkippedServed` | src/with_lock.rs:350-373 | a marker lands with all its archives if and only if what its writer skipped has them: what it uploaded has |
| `MarkerArchives.ServedAfter` | spec/prune.als:199-304 | one step of anybody keeps all markers served if and only if the marker it lands, if any, is |
| `CacheRuns.NoLostArchive` | src/prune.rs:175-187 | in a run in which every narinfo a first pass leaves behind has no archive or shares it with a kept one, every narinfo on disk has its archive in every state |
| `CacheRuns.SecondPassIsSafeIfShared` | src/prune.rs:182-187 | in any run, the second pass can take no archive from a narinfo on disk if and only if the first pass met that condition |
| `CacheRuns.ArchivesOkInRun` | src/prune.rs:233-235 | the history variable behind the condition says exactly that every first pass so far met it |
| `CacheRuns.CompletedSweepLeavesRefs` | src/prune.rs:96-191 | in every run, also after interrupted sweeps, a first pass that removes all it should leaves exactly what its scan found, and all references of that are present if and only if the derivers kept were whole when scanned |
| `CacheRuns.TidySweepLeavesRefs` | src/prune.rs:96-191 | a completed sweep of a tidy cache leaves all references present, until another sweep removes a file |
| `BrokenRuns.DeriverDangles` | src/dep_scan.rs:127-130 | for any three narinfos of which one refers to the second and is the deriver of the third, a run from a cache in order: a sweep crashes, the third is published, and the next sweep, complete, leaves a dangling reference |
| `BrokenRuns.StuckNarinfoBreaksMarker` | src/prune.rs:175-187 | a run from a cache in order: a narinfo that cannot be removed loses its archive, a writer skips it as present, and its marker lands on a closure without that archive |
| `CacheRuns.TidyUntilRemoval` | spec/prune.als:199-210 | no step but a sweep's removal of a narinfo makes the cache untidy, in any stretch of any run |
| `CacheRuns.RefsUntilRemoval` | src/prune.rs:175-180 | once no reference dangles none does until a sweep removes a narinfo, in any run, tidy or not |
| `CacheRuns.TidyScan` | src/dep_scan.rs:51-138 | a scan of a cache without dangling references finds every kept deriver whole |
| `CacheRuns.SavedCacheIsCoherent` | src/closure_cache.rs:83-119 | over any history of prunes and uploads, mutable narinfos included, every hash of the saved cache is on disk with exactly the saved metadata as long as no save failed, and every scan finds what it would find with an empty cache |
| `CacheRuns.UploadsAvoidCache` | spec/prune.als:271-292 | no writer ever uploads a hash that the saved cache knows, as long as no save failed |
| `CacheRuns.CacheIsFrozen` | src/prune.rs:97-102 | between two steps of a reading or sweeping pruner nobody else touches narinfos, archives or the closure cache, and markers can only vanish |
| `CacheRuns.NoWaitCycle` | src/prune.rs:103-114 | pruners with overlapping directory lists never wait for one another in a ring |
| `MarkerSafety.SafetyKept` | spec/prune.als:326-348 | each action of any writer or pruner, each crash, each tick and each vanished marker keeps the invariant behind `NoBrokenClosure` |
| `MarkerSafety.SafetyKeptByWrite` | spec/prune.als:220-314 | the writer's steps keep it |
| `MarkerSafety.SafetyKeptByPrune` | spec/prune.als:162-214 | the pruner's steps, one file at a time, keep it |
| `MarkerSafety.AfterScan` | src/prune.rs:130-138 | a scan from roots whose closures are on disk keeps those closures, saves them unchanged, and keeps references whole if the derivers were |
| `CacheSafety.PrunerIsAlone` | src/lock.rs:137-148 | while a pruner with fresh locks reads or sweeps, no writer with a fresh lock uploads and no other pruner reads or sweeps |
| `CacheSafety.NewcomersOnly` | src/with_lock.rs:253-264 | nobody becomes active but by having just passed its last re-check |
| `CacheSafety.CoherenceKept` | src/prune.rs:123-137 | every action keeps the saved cache true of the disk, because a writer writes only what its snapshot lacked and a sweep spares what was saved |
| `CacheSafety.SecondPruneSeesStored` | src/closure_cache.rs:95-116 | for any disk and roots, a prune that uses the cache file of one before it, on the disk before or after that one's sweep, finds what a scan would if every narinfo were as the codec stores it |
| `CacheSafety.SecondScanIsFirst` | src/closure_cache.rs:95-116 | for any disk and roots, before or after the first sweep, it finds what the first prune found if and only if all of that fits the codec |
| `CacheSafety.SecondPruneKeepsStoredRefs` | src/closure_cache.rs:111-115 | failing input: a direct reference of a root survives the second prune if and only if the codec stored it |
| `CacheProtocol.AnythingMayHappen` | spec/prune.als:136-156 | at any moment time may pass, anybody may crash, a marker may vanish, a holder may refresh and a crashed job may start again |
| `CacheProtocol.ProcInvKept` | src/with_lock.rs:290-337 | an uploading writer and a reading or sweeping pruner that have not crashed hold all their locks, and an acquiring pruner the first few of its sorted list |
| `CacheProtocol.HeldKept` | src/lock.rs:72-83 | a held lock stays held until its holder removes it or is restarted |
| `LockProtocol.HoldersAreNoRivals` | src/lock.rs:121-158 | in no interleaving of entry-by-entry directory reads do two live pruners hold one directory, nor a live pruner and a live writer |
| `LockProtocol.InvKept` | src/lock.rs:132-151 | each event keeps the invariant: of two live rivals that both think they are alone, one's re-check has yet to see the other |
| `LockProtocol.MutualExclusion` | src/with_lock.rs:247-265 | two live rivals never both hold a directory |
| `LockProtocol.StaleHolderIsPassed` | nixos/lock-guard.js:37-41 | a writer is let in beside a pruner whose lock is exactly `STALE_AFTER` old |
| `LockFiles.LockDirs.AcquireExclusive` | src/lock.rs:121-158 | success means the lock is held and its file present; every other attempt met a competing lock; giving up takes at least the wait budget and leaves no file if its removals succeeded; the number of attempts is bounded, also without a sleep between them; other directories are left alone |
| `LockFiles.AttemptsBounded` | src/lock.rs:131-157 | at most ceil(wait budget / poll) + 1 attempts, where the poll includes what an attempt takes |
| `LockFiles.LockDirs.TryOnce` | src/lock.rs:132-151 | one round ends with the lock held, or, after exactly one read that met a competing lock, with nothing held and, if the removal succeeded, no file |
| `LockFiles.LockDirs.VisitAll` | src/lock.rs:52-65 | a directory read sees every entry that is there from its beginning to its end |
| `LockFiles.LockDirs.PutLockLocal` | src/with_lock.rs:251-265 | success means the writer's lock is held and present; otherwise it is not held, each round met a fresh prune lock, and slept |
| `LockFiles.LockDirs.Drop` | src/lock.rs:77-83 | the lock is given up, and its file gone unless the removal failed |
| `LockFiles.LockDirs.AcquireAll` | src/prune.rs:103-114 | locking a list of directories is all or nothing; giving up takes the wait budget, and no more tries than that allows, each of which met a competing lock; no file stays behind unless its removal failed |
| `LockFiles.LockDirs.DropAll` | src/prune.rs:103-114 | gives up exactly the locks taken so far |
| `LockFiles.SortedDirs` | src/prune.rs:110-111 | the directories to lock, strictly ascending and none lost |
| `LockFiles.ReadLocks` | src/lock.rs:44-67 | exactly the plain files with their ages, a future mtime counting as age 0; no directory means no locks; a directory or an entry that cannot be read fails the read |
| `LockFiles.Competing` | src/lock.rs:133-136 | exactly the names of the locks that are not the pruner's own and at most `STALE_AFTER` old |
| `LockFiles.FreshPruneLock` | src/with_lock.rs:267-284 | true if and only if the directory can be read and some `prune-` entry is less than `STALE_AFTER` old; unreadable entries are passed over |
| `LockFiles.PruneLockHeld` | nixos/lock-guard.js:22-44 | a request is refused if and only if it is a PUT, the directory can be read and a fresh `prune-` entry exists |
| `LockFiles.NamesDecide` | src/with_lock.rs:273-281 | entry by entry and at any time of a read, the tests on names and ages say exactly what the protocol's tests on holders say |
| `LockFiles.PruneNamesAreSpelled` | src/with_lock.rs:274-276 | a pruner's lock is one whose name begins with `prune-` |
| `LockFiles.NamingIsPossible` | src/lock.rs:128-129 | names that tell all agents apart, pruners by their prefix, exist |
| `LockFiles.SameInMilliseconds` | nixos/lock-guard.js:20-41 | the server's test in milliseconds agrees with the writer's in seconds |
| `Publishing.MarkerLandsUnderFreshLock` | src/with_lock.rs:303-373 | in every interleaving of main thread and refresher: a marker landed under a lock that had never been stale, after the command succeeded and without a seen failure; and no lock comes back after its deletion |
| `Publishing.BoundIsExact` | src/with_lock.rs:28-30 | in seconds: 300 + 2 refresh calls + marker write < 1800 holds if and only if no run lands a marker under a stale lock |
| `Publishing.CommandIsCovered` | src/with_lock.rs:313-350 | in seconds: 300 + 2 refresh calls < 1800 holds if and only if in every run the command works under a stale lock only after a refresh has failed |
| `Publishing.CommandMayOutliveLock` | src/with_lock.rs:350-354 | after a failed refresh the command can still be running under a stale lock |
| `Publishing.InvKept` | src/with_lock.rs:313-334 | each timed step of either thread keeps the invariant |
| `Publishing.Process.RunPublish` | src/with_lock.rs:339-374 | succeeds if and only if the command did, no failed refresh was seen and the marker write did not fail |
| `Publishing.Process.JoinRefresher` | src/with_lock.rs:333-334 | the stop flag makes the refresher leave, and nothing but the wait happens to the main thread |
| `Publishing.Process.RunWithLock` | src/with_lock.rs:290-337 | success means the marker is there; a marker means a lock never stale; a deleted lock stays gone; and if the command succeeded, no failed refresh was seen and no file operation failed, both hold |
| `DepScan.ScanIsClosure` | src/dep_scan.rs:51-138 | whatever the schedule and the number of workers, an ended scan has found each hash reachable through present, readable narinfos exactly once, with its metadata, and nothing else; entry by entry, each present hash in a found `references` list or `deriver` is found, and each found hash is a root or so named |
| `DepScan.StuckIsEnded` | src/dep_scan.rs:61-134 | a run can go no further if and only if the scan has ended and all workers have left |
| `DepScan.ReplyNeverBlocks` | src/dep_scan.rs:69-89 | a worker's send on the done channel never blocks |
| `DepScan.SomeStep` | src/dep_scan.rs:97-134 | until the scan has ended some step is possible |
| `DepScan.RunsAreShort` | src/dep_scan.rs:97-134 | every schedule has at most 7 steps a hash, one a worker and two more |
| `DepScan.MeasureDrops` | src/dep_scan.rs:97-134 | every step of coordinator or worker lowers one measure |
| `DepScan.CountInvKept` | src/dep_scan.rs:95-113 | `in_flight` is always the number of jobs in channels, in hands and answered, and within the high-water mark |
| `DepScan.ProgressIsCount` | src/dep_scan.rs:115-117 | under every schedule no more hashes are queued and in flight than seen, so the progress count never underflows |
| `DepScan.FoundInvKept` | src/dep_scan.rs:34-131 | every step keeps: a hash is pending at most once, is seen only if reachable, and is found once nothing of it is pending |
| `Scanner.DependencyScanner.Enqueue` | src/dep_scan.rs:34-38 | queues a hash if and only if it was not seen |
| `Scanner.DependencyScanner.Dispatch` | src/dep_scan.rs:98-110 | ends with the pool saturated or the queue empty |
| `Scanner.DependencyScanner.TakeAnswer` | src/dep_scan.rs:115-131 | an answer always arrives, and taking it in makes progress |
| `Scanner.DependencyScanner.Scan` | src/dep_scan.rs:51-138 | terminates with each hash of the closure of the enqueued ones exactly once, and its metadata; entry by entry as above |
| `Closures.ScanWithCache` | src/dep_scan.rs:78-86 | a cache that is never wrong about an existing file does not change what a scan finds |
| `Closures.SweepLeavesRefs` | src/prune.rs:150-180 | from whole roots, sweeping leaves no dangling reference if and only if the kept derivers were whole |
| `Closures.ScanClosed` | src/dep_scan.rs:127-131 | what a scan keeps is on disk, holds the roots on disk and is closed under references and derivers on disk |
| `Closures.ClosureByPath` | src/dep_scan.rs:127-131 | a hash is in a closure if and only if it is present and at the end of a path from a root along `references` lists and derivers |
| `Closures.RefsByPath` | spec/prune.als:47-48 | the same along `references` lists alone |
| `NarInfos.SuccessorsAreListed` | src/dep_scan.rs:127-128 | what a scan follows is the `references` list and the deriver |
| `NarInfos.ArchiveIsBaseName` | src/prune.rs:155-160 | the archive of a URL is named by what stands behind its last slash |
| `ClosureCache.LoadUndoesSave` | src/closure_cache.rs:43-119 | loading what was saved gives every entry back in its stored form, later duplicates winning |
| `ClosureCache.LoadedMapIsSavedList` | src/closure_cache.rs:43-119 | for distinct hashes within the limits the loaded map is exactly the saved list |
| `ClosureCache.StoredIsIdentity` | src/closure_cache.rs:97-115 | the round trip leaves an entry unchanged if and only if it has at most 65535 references and a URL that is absent or of 1 to 65535 bytes |
| `ClosureCache.CutFile` | src/closure_cache.rs:43-81 | a saved file cut at a record boundary behind the magic loads as its leading records, cut anywhere else as nothing |
| `ClosureCache.DecodeRecordExtends` | src/closure_cache.rs:50-69 | a record that decodes decodes alike whatever follows it |
| `ClosureCache.TruncatedRecord` | src/closure_cache.rs:121-134 | no proper prefix of a record decodes |
| `ClosureCache.Save` | src/closure_cache.rs:93-116 | the loop writes the encoding of the list |
| `ClosureCache.CacheFile.SaveFile` | src/closure_cache.rs:88-119 | the cache file becomes the encoding unless a file operation failed, else stays as it was; whoever reads it meanwhile, or after a write cut short, finds one of the two |
| `ClosureCache.TryLoad` | src/closure_cache.rs:43-81 | the loop reads what `Decode` says, on any bytes |
| `ClosureCache.Load` | src/closure_cache.rs:37-41 | any failure gives the empty map |
| `ClosureCache.FilesAreSpelled` | src/closure_cache.rs:26-26 | a file is `NCCCLOS`, the byte 1, and one record an entry |
| `ClosureCache.RecordsAreSpelled` | src/closure_cache.rs:95-116 | the order and the widths of a record's fields |
| `ClosureCache.LittleEndian` | src/closure_cache.rs:99-112 | byte i of a number counts 256^i |
| `ClosureCache.DecodedIsValid` | src/closure_cache.rs:43-81 | whatever bytes a file holds, it yields valid hashes and UTF-8 URLs |
| `NarInfos.ParseNarInfo` | src/binary_cache.rs:62-81 | the loop computes `Parse` |
| `NarInfos.ParseUndoesRender` | src/binary_cache.rs:62-81 | parsing recovers every field of a rendered file in any order, with unrelated lines anywhere between, the last of equal keys winning |
| `NarInfos.FieldRecovered` | src/binary_cache.rs:69-77 | a field given one value is read back wherever its line stands |
| `NarInfos.FieldsRead` | src/binary_cache.rs:69-77 | the same value by value: URL and sizes as they are, the hash at the beginning of each reference in order, the deriver's |
| `NarInfos.FieldsAreSpelled` | src/binary_cache.rs:69-77 | the lines begin with `URL: `, `Deriver: ` and `References: ` |
| `NarInfos.SizesAreSpelled` | src/binary_cache.rs:71-72 | and with `FileSize: ` and `NarSize: ` |
| `NarInfos.SizesAreDecimal` | src/binary_cache.rs:71-72 | a size is one or more digits below 2^64 with or without a plus sign, anything else 0 |
| `NarInfos.AbsentFields` | src/binary_cache.rs:63-80 | a field no line gives keeps its default |
| `Utf8Text.ParsedIsValid` | src/binary_cache.rs:53-59 | whatever text a narinfo holds, parsing yields valid hashes and a UTF-8 URL |
| `Utf8Text.FieldsAreWellFormed` | src/binary_cache.rs:69-77 | every field whose values are graphic text, and references that begin with a hash, has a line to be read back from |
| `Utf8Text.OtherLinesAreUnrelated` | src/binary_cache.rs:65-78 | a line with another key is passed over |
| `Utf8Text.KeylessLinesAreUnrelated` | src/binary_cache.rs:65-67 | so is a line without a colon |
| `Utf8Text.SplitOnceAtFirst` | src/binary_cache.rs:65-67 | a line is split at its first `: `, if it has one |
| `Utf8Text.LinesOfText` | src/binary_cache.rs:64-64 | every line is read, a last one without newline too |
| `Utf8Text.TrimEndOfChar` | src/binary_cache.rs:68-68 | a last character is trimmed if and only if it is white space |
| `Utf8Text.Utf8IsText` | src/binary_cache.rs:28-28 | bytes are text if and only if they encode some Unicode scalar values |
| `NarInfos.ParseRenderedField` | src/binary_cache.rs:65-77 | one line, one field: URL, both sizes, reference hashes in order, deriver |
| `StoreHashes.FromBytes` | src/store_hash.rs:39-45 | 32 bytes are a store hash if and only if all are alphanumeric, and it is those bytes |
| `StoreHashes.ValidIsSpelled` | src/store_hash.rs:41-45 | a hash is 32 characters of `0` to `9`, `A` to `Z` and `a` to `z` |
| `StoreHashes.FromPrefix` | src/store_hash.rs:28-37 | a name yields a hash if and only if it begins with a valid one, and then that one |
| `StoreHashes.FromStorePath` | src/store_hash.rs:19-26 | a path yields exactly the valid hash that its component behind `/nix/store` begins with |
| `StoreHashes.StorePathYieldsHash` | src/store_hash.rs:15-26 | the path of a store item, or of a file below it, yields the hash the item was named with |
| `StoreHashes.StorePathIsSpelled` | src/store_hash.rs:19-22 | such a path begins with `/nix/store/` |
| `StoreHashes.FileNameIsBaseName` | src/prune.rs:158-158 | a file name is what stands behind the last slash |
| `StoreHashes.FileNameOfDir` | src/prune.rs:158-158 | trailing slashes do not count, and a parent directory has no file name |
| `GcRoots.GcRoots.Scan` | src/gcroots.rs:48-67 | the queue-driven walk ends and collects exactly what the recursive specification does, visiting each node once |
| `GcRoots.GcRoots.ReadMarkerFile` | src/gcroots.rs:69-79 | adds exactly the hashes of the lines that are store paths |
| `GcRoots.MarkerYieldsHashes` | src/gcroots.rs:69-79 | a file of store paths, one a line, yields exactly their hashes |
| `GcRoots.LastLineCounts` | src/gcroots.rs:74-78 | also when the last line has no newline |
| `GcRoots.RootOfPath` | src/gcroots.rs:75-75 | white space before a path does not matter |
| `GcRoots.WrittenMarkerYieldsHash` | src/with_lock.rs:210-210 | what a writer puts into its marker yields the hash of its path |
| `GcRoots.CollectedFromEach` | src/gcroots.rs:56-63 | files and directories yield roots, nothing else does |
| `GcRoots.DotHides` | src/gcroots.rs:87-90 | exactly the names with a leading dot are hidden, a marker's temporary file among them |
| `GcRoots.GcRoots.RecurseInto` | src/gcroots.rs:81-93 | queues exactly the entries that are not hidden, in order |
| `GcRoots.CollectIsByName` | src/gcroots.rs:86-91 | in whatever order a directory is read, the roots are those of its entries that are not hidden |
| `GcRoots.HiddenFilesAreNoRoots` | src/gcroots.rs:87-90 | adding, changing or removing a hidden entry changes no root |
| `GcRoots.MarkerDir.WriteFile` | src/with_lock.rs:210-210 | a write in pieces, cut short anywhere, touches one file only |
| `GcRoots.MarkerDir.PutMarker` | src/with_lock.rs:200-212 | at every moment and after every failure a reader finds the roots of the old marker or of the new one; unless a file operation failed the new one is there and its hashes are roots |
| `PruneRun.Prune` | src/prune.rs:96-191 | a run that cannot lock every directory has met a competing lock and waited its time, and changes nothing; any other keeps every file of a reachable entry, and whatever else is left could not be removed, unless a sweep was cut short; without failures exactly the files of the closure and what is no entry are left, and no lock |
| `PruneRun.Cache.Run` | src/prune.rs:123-191 | whatever fails and wherever it stops, no file of a reachable entry goes or is tried; narinfos and listings are tried before archives; what else is left could not be removed, unless a sweep was cut short; a dry run changes nothing; the cache file is the encoding of the scan, or the old one if it could not be written |
| `PruneRun.Directory.Sweep` | src/prune.rs:201-239 | tries to remove nothing it should not, and unless cut short leaves only what could not be removed of what it should |
| `PruneRun.KeepSets` | src/prune.rs:139-173 | the names the loop collects |
| `PruneRun.KeepSetsByName` | src/prune.rs:155-169 | by name: the narinfo and the listing of each entry, and for a URL `dir/name` the archive `name` |
| `PruneRun.EntryNamesAreSpelled` | src/prune.rs:175-178 | the first sweep looks at exactly the names that end in `.narinfo` or `.ls` |
| `PruneRun.NamesAreSpelled` | src/prune.rs:10-24 | the names are the hash and `.narinfo` or `.ls` |
| `PruneRun.KeepSetsMeaning` | src/prune.rs:145-172 | those names are exactly narinfo, listing and archive names of the closure |
| `PruneRun.Cache.ScanRoots` | src/prune.rs:126-130 | the roots' closure, each hash once |
| `PruneRun.SamePruneWithoutCache` | src/dep_scan.rs:78-86 | with a truthful cache a prune keeps exactly the files it keeps without one |
| `PruneRun.CacheNeverMatters` | src/prune.rs:123-187 | so it is after any history of complete or incomplete prunes and of uploads, each of a hash the cache file does not know or knows as it is uploaded |
| `PruneRun.SavedCacheIsTruthful` | src/prune.rs:133-137 | the file a run writes tells the truth about whatever that run leaves if and only if the entries left fit the codec |
| `PruneRun.LongUrlLosesArchive` | src/closure_cache.rs:97-101 | failing input: an archive whose URL is too long for the codec is kept by one prune and deleted by the next |
| `PruneRun.GoneMeansGone` | src/dep_scan.rs:78-84 | a run finds the same with the cached entries whose narinfo is gone as without them, and never finds such a hash |
| `PruneRun.SecondScan` | src/prune.rs:123-132 | after a complete first pass a second scan, on the old cache file or the saved one, finds the same closure with the same metadata, even if the cache was wrong |
| `PruneRun.SecondRunDeletesNothing` | src/prune.rs:116-190 | so a second run with the same roots, complete or not, deletes nothing |
| `PruneRun.RunTwice` | src/prune.rs:123-191 | two runs in a row on the real cache file, the first without failed removals: the second, however it ends, finds the same entries and leaves every file |
| `PruneRun.NarsStayComplete` | src/prune.rs:175-187 | after a complete first pass no removal of the second takes an archive from a narinfo that is left, shared or not |
| `PruneRun.NarsCompleteIfShared` | src/prune.rs:233-235 | after any first pass and a full second one, every narinfo has its archive if and only if each one left behind shares its archive with a kept one |
| `PruneRun.StuckNarinfoLosesArchive` | src/prune.rs:233-235 | a narinfo that cannot be removed loses its archive |
| `PruneRun.UnreadableIsSwept` | src/binary_cache.rs:24-30 | a reachable narinfo is kept if and only if it is there and cached or readable |
| `PruneRun.SweepRefinesProtocol` | src/prune.rs:133-187 | on file names, a complete first pass takes the disk to exactly what the protocol's scan keeps, the second pass spares exactly the archives the protocol spares, and the cache file loads as the protocol's saved entries |
| `PruneRun.NamesTellHashes` | src/prune.rs:10-24 | narinfo names tell hashes apart, and no narinfo name is a listing name |
| `PruneRun.CollectRoots` | src/prune.rs:116-120 | the roots are those of all gcroots directories |

## Left out

- nginx, TLS, Tor, the NixOS modules, shell scripts and virtual-machine checks: deployment.
- `nixos/oidc-auth.js` and the token issuer: rest on WebCrypto and the njs regular expressions, which are not part of this model.
- curl and process spawning: operations that succeed or fail within a time bound; a remote refresh may re-create the lock file.
- `fallbackCache`, whose writes bypass the lock protocol.
- Progress reports, messages, argument parsing and the byte statistics (`file_size` in `src/prune.rs:139-171`).
- Canonical paths, symbolic links and OS string encodings: directories are numbers, file names byte sequences.
- Relaxed atomics: threads interleave step by step; channels are bounded queues.
- PutLockLocal: gives up after a number of rounds, any number, since the code waits without bound.
- AcquireExclusive: an I/O error after the lock is written is a crash, which leaves the file; that the back-off race ends in somebody's favour is not claimed.
- AcquireExclusive: needs a positive budget to come with a sleep or with attempts that take time, since with neither the attempts have no bound.
- `rand_token` and the uniqueness of lock names: a hypothesis.
- ReadLocks: reads the directory at one moment, like FreshPruneLock and PruneLockHeld; the protocol reads it entry by entry.
- Clocks: one, never going back, so a lock's age is the same for every reader at one moment.
- Time a thread needs to be scheduled: a refresh is due `REFRESH_INTERVAL` after the last one ended, any delay counting as part of the call.
