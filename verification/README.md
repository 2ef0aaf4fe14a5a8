# The blob lifecycle of the content cache

A Dafny model of how the cache keeps, counts and takes away blobs, with proofs about whole runs:
the S3-FIFO evictor and its persisted queues, the reference-counted metadata database with its expiry
index and reaper, the content store and garbage collector that join them, and the upload lease registry.

A transaction is one atomic step on maps; a hash stands for its content and `sz` gives the size of that
content; every call that can fail takes a flag that says whether it does.

## How the files fit together

| file | what it holds |
|---|---|
| ByteStrings, Buckets | byte order, big-endian numbers, timestamps, compound keys; the key encoders and the key parser as loops over buffers |
| Fifo, Queues | duplicate-free FIFO sequences; the paired buckets of `BoltQueues`, each operation proved against the sequence |
| Blobs, Envelopes, MetaState | blob rows, reference sets, and each envelope transaction with the laws it keeps |
| MetaDB, MetaRuns | the class `BoltDB`; runs of its transactions, and how they land between the steps of a longer operation |
| Reaper, Operations | the reaper's loops, and the loops that check and rebuild counts, with other transactions in between |
| CacheSteps | each step of the evictor as a function of the state and of which calls fail |
| S3Fifo | the class `Manager`, each method proved equal to its step |
| Drain | runs without failures: rotation, termination, the size at rest, the chances of a blob |
| Interleaving, Exactness | concurrent admissions, removals and evictions with any failures: counters never fall short, and when they are exact |
| StoreSteps, Cafs | put, delete, collect and sweep, as functions and as the classes `CAFS` and `Collector` |
| Accounting | what steps without failures keep in agreement; restart, collection, eviction and re-admission |
| Outcomes | what each operation of the cache comes to, in queues, counters, rows, files and numbers alone |
| Collection | repeated collections with a batch limit: draining and starvation |
| Lifecycle | whole runs over everything: referential integrity whatever fails, accounting when nothing does |
| CrashSteps | single effects of numbered operations on disk and database, interleaved and stopped anywhere |
| Uploads | upload leases under every interleaving |

## Where code and documentation differ

- `store/s3fifo/s3fifo.go:345-350` reports "all eviction candidates pinned" whenever a run over the limit did
  nothing. The code also does nothing when small is at or under its target and holds unpinned blobs, while all
  of main is pinned. `Drain.RestExactly` gives the exact condition, and `Lifecycle.OverrunWithUnpinnedBlob` a
  run of five operations from the empty store that ends there.
- `store/metadb/bolt.go:796` says a reference to an absent blob is set when the blob is stored. Storing a blob
  writes count zero (`store/cafs.go:147-153`). `MetaState.NewRowCounts` and `Lifecycle.StoredIntact` say exactly
  when counts and references stay right; `Lifecycle.EarlyReferenceIsCollectable` shows what happens otherwise.
- Eviction and collection check the count when they select a blob but not again when they delete it.
  `Lifecycle.LateDeletionExactly` says that a late deletion is right exactly when the count is still zero;
  `Lifecycle.LateCollectionDangles` and `Lifecycle.LateEvictionDangles` put an envelope write in between. The
  whole-run results therefore take one eviction run or one collection phase as a step.
- When trimming the ghost set fails, the ghost counter is capped all the same (`store/s3fifo/s3fifo.go:620-628`)
  and can fall below the size of the set. `Exactness.FinishGhostsExactly` gives the exact condition and
  `Exactness.GhostsNeverUnderCounted` what holds when no trim fails. A later trim need not repair it:
  `Exactness.TrimSettlesGhostsExactly` says when it does, and `Exactness.GhostsStayShort` is a run in which it
  does not.
- `store/metadb/operations.go:98-100` says a rebuild counts "actual references". It counts in one transaction and
  writes in a later one, so it writes the references of the earlier moment. `Operations.RebuildRaceExactly` says
  when the result is exact; `Operations.RebuildMissesStore` is an envelope write in between that makes a named blob
  look unreferenced.
- Parsing a compound key inverts building it only for NUL-free protocols and kinds (`Buckets.ParseBuilt`). The
  reaper does not need that: rebuilding from the parsed parts always gives the same key (`Buckets.BuildParsed`).
- Expiries are kept in milliseconds but indexed in 64-bit nanoseconds (`store/metadb/bolt.go:1249-1254`). Up to
  9223372036854 ms, in the year 2262, the reaper sees exactly the envelopes that are due, at every reading of a
  representable clock; a later expiry, such as a very long time to live gives, wraps around to a time in the past,
  so that the reaper takes the envelope although `store/metadb/envelope_index.go:277-282` calls it not expired.
  `Reaper.ExpiredIsDueExactly` and `Reaper.ExpiredSetIsDueExactly` are the exact conditions,
  `Reaper.FarFutureIsReaped` an instance. "Expired" in the rows below is what the index holds, wrapped
  nanoseconds, and "due" is the true time; everything said of expired envelopes holds of due ones in that range.

## Model

| member | source | states |
|---|---|---|
| Lifecycle.ReferencedBlobsSurvive | store/s3fifo/s3fifo.go:439-653 | After every run from the empty store, with any call in any step failing, each blob named by a stored envelope has its row, its file and as count the number of naming envelopes |
| Lifecycle.RunKeeps | store/gc/phases.go:59-192 | Any sequence of puts, accesses, deletions of unpinned blobs, evictions, collections, sweeps, envelope puts, updates, deletes, reaps, rebuilds and restarts, each with any pattern of failures inside it, keeps references, counts and indexes right |
| Lifecycle.PutSpares | store/cafs.go:112-173 | A put with any failures, and its rollback, leaves every pinned row its count and file, and writes new rows with count zero |
| Lifecycle.EvictSpares | store/s3fifo/s3fifo.go:308-369 | An eviction run with any failures leaves every pinned blob its row, count and file |
| Lifecycle.CollectSpares | store/gc/phases.go:59-192 | So does a collection, whichever deletions stop halfway |
| Lifecycle.DropSpares | store/s3fifo/s3fifo.go:636-653 | Each of the three deletions of an unpinned blob, whatever fails, leaves every pinned row its count and file |
| Lifecycle.StoreIsAccounted | store/s3fifo/s3fifo.go:140-280 | After every run without failures, files, rows and the two queues hold the same blobs, the ghost set none of them, and the counters are their number and total size |
| Lifecycle.CacheStepOutcome | store/s3fifo/s3fifo.go:308-369 | Each step without failures does its work: stored content has row and file, deleted content is gone everywhere, a run over the limit with something to take takes something, a collection without limit leaves nothing to collect, a sweep and a restart change nothing |
| Lifecycle.EnvelopeStepOutcome | store/metadb/bolt.go:938-1191 | Each envelope step stores, deletes or leaves what it should, field by field |
| Lifecycle.RunKeepsAccount | store/cafs.go:93-275 | Every step without failures keeps that agreement |
| Accounting.AdmitAccounted | store/cafs.go:144-177 | Content stored for the first time enters exactly one queue and is counted once |
| Outcomes.PutOutcome | store/cafs.go:107-185 | When each result is returned and what the row then holds: both times of the put and no counts for new content, the time and one access more, up to three, for old, nothing left of a failed write unless the rollback fails |
| Outcomes.DeletionTellsEvictor | store/gc/phases.go:160-192 | The collector tells the evictor only after both deletions, a deletion by hand always once the file is gone; with the row's size, or zero when it could not be read |
| Accounting.ErasedAccounted | store/cafs.go:251-275 | Deleting a blob from disk, database and evictor keeps files, rows, queues, ghosts and all five counters in agreement |
| Accounting.AfterAccounted | store/s3fifo/s3fifo.go:308-369 | Every run of the evictor keeps that agreement |
| Collection.SelectedExactly | store/metadb/bolt.go:587-625 | The query selects a blob if and only if fewer than the limit come before it |
| Collection.SelectedByAge | store/metadb/bolt.go:601-621 | Without a limit the query selects exactly the rows with count zero whose access and storage times are not after the cutoff |
| Collection.FreshIsSpared | store/gc/phases.go:62-67 | A blob stored or touched after the cutoff is not selected, with any limit |
| Collection.DrainedExactly | store/gc/phases.go:59-93 | Phases without failures drain everything if and only if their number times the limit is at least what there was |
| Collection.CollectedExactly | store/gc/phases.go:67-93 | When the same deletions fail in every phase, another blob is ever collected if and only if fewer than the limit of undeletable ones come before it, and then within a bounded number of phases |
| Accounting.CollectErases | store/gc/phases.go:74-93 | Whatever fails, a collection deletes exactly the files and rows it reached and reports each selected blob as deleted or as an error |
| Accounting.CollectReclaims | store/gc/phases.go:88-89 | The reclaimed bytes are the sizes of the blobs it deleted completely |
| Accounting.CollectAccounted | store/gc/phases.go:59-93 | A collection without failures keeps files, rows, queues and counters in agreement |
| Accounting.SweepKeeps | store/gc/phases.go:96-157 | In an accounted store the orphan phase changes nothing, whatever fails |
| Accounting.CountersAreStoredBytes | store/s3fifo/s3fifo.go:186-190 | The over-limit decision is taken on the true total size of the stored blobs |
| Accounting.RestartIsTransparent | store/s3fifo/s3fifo.go:671-719 | Recounting misses exactly the bytes of rows that cannot be read; when all can, it gives the counters of a failure-free run and the over-limit decision survives a restart |
| Lifecycle.StoredIntact | store/metadb/bolt.go:968-999 | Storing an envelope keeps every named blob stored if and only if all its own references are stored |
| Lifecycle.LateDeletionExactly | store/gc/phases.go:160-192 | A deletion by the collector, the evictor or by hand keeps every named blob stored if and only if it stops before the file or the count is zero when it happens |
| Lifecycle.EarlyReferenceIsCollectable | store/metadb/bolt.go:793-813 | A blob stored after an envelope that names it has count zero and is selected for collection |
| Lifecycle.LateCollectionDangles | store/gc/phases.go:67-81 | A blob selected by the query, then named by an envelope, then deleted, leaves the envelope without it |
| Lifecycle.LateEvictionDangles | store/s3fifo/s3fifo.go:332-341 | The same for a candidate popped under the lock and deleted outside it |
| Accounting.GhostRoundTrip | store/s3fifo/s3fifo.go:140-190 | A one-hit wonder evicted from small and stored again goes to the newest end of main and leaves the ghost set |
| Accounting.ColdRoundTrip | store/s3fifo/s3fifo.go:516-582 | A blob evicted from main and stored again starts over in small |
| Accounting.FateIsShort | store/metadb/bolt.go:497-500 | The access cap bounds what can happen to a blob: one promotion, three second chances, one eviction |
| Drain.ScanRotatesSmall | store/s3fifo/s3fifo.go:374-406 | A scan of small acts on the oldest unpinned entry and leaves the later entries followed by the skipped pinned ones in order; an all-pinned scan restores order and counters |
| Drain.ScanRotatesMain | store/s3fifo/s3fifo.go:374-406 | The same for main |
| Drain.RunDoesNextEvent | store/s3fifo/s3fifo.go:308-369 | One run does exactly one decision, small before main, and signals itself only after progress over the limit |
| Outcomes.SmallGivesExactly | store/s3fifo/s3fifo.go:308-391 | Over the limit with an unreferenced blob in small, a run takes the oldest such blob out of small if and only if small's bytes times 100 exceed MaxSize times SmallQueuePercent, and else leaves small as it is |
| Outcomes.RunOnSmall | store/s3fifo/s3fifo.go:439-510 | What such a run does: the blob goes to the newest end of main if it was ever accessed, else its file and row go and it is the newest ghost; counters follow, and the run signals exactly while over the limit |
| Outcomes.RunOnMain | store/s3fifo/s3fifo.go:516-582 | Else the oldest unreferenced blob of main is put back with one access less, or its file and row go |
| Outcomes.RunOnNothing | store/s3fifo/s3fifo.go:308-369 | Within the limit, or with nothing to take, a run changes nothing and does not signal |
| Outcomes.FailedDeletionFromSmall | store/s3fifo/s3fifo.go:332-341 | A candidate from small whose deletion fails is back at the newest end with all counters as before, unless that write fails too; the run does not signal |
| Outcomes.FailedDeletionFromMain | store/s3fifo/s3fifo.go:332-341 | The same for main |
| Outcomes.SelectionLosesExactly | store/s3fifo/s3fifo.go:439-582 | Where the popped entry is after a selection with any failures, which decision is reported, and that it is lost exactly when it has no row or every write that would put it back fails |
| Outcomes.EmptySelection | store/s3fifo/s3fifo.go:440-446 | A failed pop changes nothing; an empty queue counts as a decision taken |
| Outcomes.AdmitOutcome | store/s3fifo/s3fifo.go:140-192 | Which queue a new blob enters and what is counted, for every pattern of failures |
| Outcomes.ReadmitOutcome | store/s3fifo/s3fifo.go:140-192 | What is still in small moves to its newest end uncounted; a ghost hit for what is in main already is counted again |
| Outcomes.RemoveOutcome | store/s3fifo/s3fifo.go:230-280 | What a removal takes from each queue, the ghost set and the counters, for every pattern of failures |
| Outcomes.FinishOutcome | store/s3fifo/s3fifo.go:609-668 | The ghost set keeps the newest that fit: as many as configured, or as main has entries but at least 128 |
| Drain.AfterKeepsCounted | store/s3fifo/s3fifo.go:439-633 | A run keeps the queues disjoint and backed by rows and the byte and length counters exact |
| Drain.ActingLowersPotential | store/s3fifo/s3fifo.go:355-363 | Every acting run lowers the sum of AccessCount+2 over small and AccessCount+1 over main |
| Drain.TraceWithinPotential | store/s3fifo/s3fifo.go:355-363 | A chain of self-signalled runs has at most that many decisions |
| Drain.RestIsBounded | store/s3fifo/s3fifo.go:322-339 | Where a run has nothing to do, the total is at most the limit or the pinned bytes of main plus the larger of small's target and its pinned bytes |
| Drain.DrainEndsBounded | store/s3fifo/s3fifo.go:283-369 | A chain of runs ends at rest with exact counters, within that bound taken from the pinned blobs it started with, and within the limit when none is pinned |
| Drain.RestExactly | store/s3fifo/s3fifo.go:385-391 | The evictor rests over the limit exactly when main is all pinned and small is at its target or all pinned |
| Lifecycle.OverrunWithUnpinnedBlob | store/s3fifo/s3fifo.go:345-350 | A run from the empty store that ends over the limit with an unpinned blob and nothing left to evict |
| Drain.TraceFollowsFate | store/s3fifo/s3fifo.go:487-580 | Without touches, what happens to a blob is a prefix of: one promotion if it was accessed, one second chance for each access, eviction |
| Drain.RestoreUndoesSelection | store/s3fifo/s3fifo.go:584-607 | A candidate whose file could not be deleted is restored with all counters, rows and files as before |
| Interleaving.NeverUnderCounts | store/s3fifo/s3fifo.go:140-280 | From a recount, under every interleaving and failure pattern, the byte and length counters are at least the queue totals whenever the lock is free, so no clamp to zero is reached |
| Exactness.CountersStayExact | store/s3fifo/s3fifo.go:136-139 | They stay exact, and the queues disjoint, while a hash is admitted only when it is neither queued nor selected nor being admitted, removals are told the true size, and selections lose no entry |
| Exactness.SelectExactly | store/s3fifo/s3fifo.go:439-582 | A selection with any failures keeps exact counters exact if and only if it does not lose an entry whose bytes or length stay counted: one without a row, or one that a failed queue write drops |
| Exactness.FinishGhostsExactly | store/s3fifo/s3fifo.go:609-633 | The ghost counter falls below the ghost set if and only if a trim fails while the set is over its maximum |
| Exactness.TrimSettlesGhostsExactly | store/s3fifo/s3fifo.go:609-633 | A finish that adds and trims leaves an exact ghost counter if and only if it counted what it added or both reach the maximum |
| Exactness.GhostsStayShort | store/s3fifo/s3fifo.go:620-628 | A failed trim, two removals and a finish without failures end with the ghost counter one below the ghost set |
| Exactness.GhostsNeverUnderCounted | store/s3fifo/s3fifo.go:140-280 | In every interleaving in which no trim fails the ghost counter is at least the size of the ghost set |
| Interleaving.RecountCovers | store/s3fifo/s3fifo.go:671-719 | A recount in which every queued hash has a row that can be read is exact |
| Interleaving.AdmitStepKeepsInv | store/s3fifo/s3fifo.go:140-192 | Ghost check, queue write and counter write may interleave between threads without losing a count |
| Interleaving.RemoveCovers | store/s3fifo/s3fifo.go:230-280 | A removal with any failures never under-counts and reaches no clamp |
| Interleaving.EvictFromSmallCovers | store/s3fifo/s3fifo.go:439-510 | Nor does any selection from small, whichever calls fail |
| Interleaving.EvictFromMainCovers | store/s3fifo/s3fifo.go:516-582 | Nor any selection from main |
| Interleaving.RestoreCovers | store/s3fifo/s3fifo.go:584-607 | Nor a restore, which counts nothing when the hash was admitted again meanwhile |
| Interleaving.AdmitIsItsSteps | store/s3fifo/s3fifo.go:140-192 | The steps of one thread, with no others in between, are the manager's admission |
| Interleaving.EvictIsItsSteps | store/s3fifo/s3fifo.go:308-369 | Selection, deletion and finish or restore, with nothing in between, settle as the manager's run does |
| S3Fifo.NormalizedConfig | store/s3fifo/s3fifo.go:80-89 | Which configurations are accepted, that limit and percentage are kept as given, ten percent when none is, and that small's target is within the limit |
| S3Fifo.NewManager | store/s3fifo/s3fifo.go:80-122 | Refuses a bad configuration or queues that cannot be read; otherwise a manager with counters recounted over the rows that can be read, and a signal exactly when over the limit |
| S3Fifo.Manager.Admit | store/s3fifo/s3fifo.go:140-224 | The method does the admission steps, and signals only after an admission over the limit |
| S3Fifo.Manager.Remove | store/s3fifo/s3fifo.go:230-280 | The method does the removal step, including the ghost set |
| S3Fifo.Manager.EvictFromSmall | store/s3fifo/s3fifo.go:439-510 | The method does the selection step from small for every pattern of failures |
| S3Fifo.Manager.EvictFromMain | store/s3fifo/s3fifo.go:516-582 | The method does the selection step from main for every pattern of failures |
| S3Fifo.Manager.ScanEvictionQueue | store/s3fifo/s3fifo.go:374-406 | The bounded loop is the scan |
| S3Fifo.Manager.MaybeEvict | store/s3fifo/s3fifo.go:308-369 | The method does one run, with commit or undo of the deletion outside the lock |
| S3Fifo.Manager.RunWhileSignalled | store/s3fifo/s3fifo.go:283-301 | The self-signalling loop terminates in the drained state |
| Queues.OrderMembers | store/s3fifo/queues.go:107-180 | Mutually inverse buckets stand for a duplicate-free queue of exactly the indexed hashes |
| Queues.DeleteEntry | store/s3fifo/queues.go:131-153 | Deleting one entry from both buckets keeps them inverse and takes its hash out of the order |
| Queues.PushEntry | store/s3fifo/queues.go:324-348 | The steps of a push keep the buckets inverse and move the hash to the newest end |
| Queues.TxPushHead | store/s3fifo/queues.go:324-348 | A push is an insertion at the newest end and reports whether the hash was present |
| Queues.TxPopTail | store/s3fifo/queues.go:352-375 | A pop takes the oldest hash, and reports an empty queue |
| Queues.TxRemove | store/s3fifo/queues.go:131-153 | A removal takes out exactly the hash |
| Queues.TxTrim | store/s3fifo/queues.go:276-305 | A trim keeps exactly the newest entries |
| Queues.BoltQueues.AdmitGhostHit | store/s3fifo/queues.go:185-212 | A hash still in the ghost set moves to the newest end of main; otherwise nothing changes |
| Queues.BoltQueues.GhostAdd | store/s3fifo/queues.go:228-252 | A ghost entry is the newest, once |
| ByteStrings.BigEndianOrder | store/s3fifo/queues.go:401-407 | The byte order of encoded sequence numbers is numeric |
| MetaState.StoredValid | store/metadb/bolt.go:952-1008 | Storing keeps the references bucket equal to the stored references, duplicate-free, and the expiry index coherent and exact |
| MetaState.PutOutcome | store/metadb/bolt.go:938-1008 | A put keeps the expiry, body and attribute sizes as given and the references in lower case, once and in order; moves each count by what the key begins and ceases to name; and leaves all other keys and all other row fields alone |
| MetaState.DropOutcome | store/metadb/bolt.go:1035-1067 | A delete leaves nothing under the key, lowers the counts it named and leaves the rest alone |
| MetaState.UpdateOutcome | store/metadb/bolt.go:1094-1191 | An update does which of these its answer says, or nothing |
| Reaper.StoredIsDueExactly | store/metadb/bolt.go:997-1002 | An envelope stored with an expiry in range is due, and expired, at exactly the times after it |
| MetaState.DroppedValid | store/metadb/bolt.go:1035-1067 | So does deleting |
| MetaState.ReindexedCoherent | store/metadb/bolt.go:1222-1260 | The forward index stays the inverse image of the reverse index and holds a key exactly for a positive expiry |
| MetaState.RebuiltForwardKey | store/metadb/bolt.go:1236-1239 | The forward key built from the decoded old time is the old forward key |
| MetaState.StoredCounts | store/metadb/bolt.go:974-986 | Storing moves each count with the number of naming envelopes |
| MetaState.UpdateCounts | store/metadb/bolt.go:1094-1191 | Update, replace and delete never over-count and keep exact counts exact |
| MetaState.ReapCounts | store/metadb/bolt.go:1302-1352 | So does a conditional delete |
| MetaState.NewRowCounts | store/cafs.go:144-156 | Writing a row with count zero keeps counts exact if and only if no envelope names the hash |
| MetaRuns.DisciplineIsNeeded | store/s3fifo/s3fifo.go:555-565 | The same for a second chance that puts back a row it read before an envelope named the blob |
| MetaRuns.RunConservesCounts | store/metadb/bolt.go:793-837 | In every run of transactions no count exceeds the number of naming envelopes, and counts stay exact while rows are written only for unnamed hashes |
| MetaDB.BoltDB.PutEnvelope | store/metadb/bolt.go:938-1008 | Stores what was given under the key, field by field, with its references and counts, or refuses an invalid envelope and changes nothing |
| MetaDB.BoltDB.DeleteEnvelope | store/metadb/bolt.go:1035-1067 | Leaves nothing under the key and everything else as it was, but for the counts it named |
| MetaDB.BoltDB.UpdateEnvelope | store/metadb/bolt.go:1094-1191 | Stores the answer field by field, deletes, or leaves everything, as the callback answers for the stored envelope |
| MetaDB.BoltDB.TouchBlob | store/metadb/bolt.go:476-515 | Sets the access time, raises the access count up to three and returns it, and changes nothing else; reports a missing row |
| MetaDB.BoltDB.GetUnreferencedBlobs | store/metadb/bolt.go:587-625 | The scan returns the selection: rows with count zero last stored and accessed no later than the cutoff |
| MetaDB.UnreferencedMembers | store/metadb/bolt.go:587-625 | The selection holds only rows with count zero whose times are not after the cutoff, each once, and all of them below the limit |
| MetaDB.BoltDB.ListEnvelopeKeys | store/metadb/bolt.go:1070-1088 | The seek and scan visits exactly the stored keys with the prefix |
| MetaDB.ListingIsExact | store/metadb/bolt.go:1070-1088 | For a NUL-free protocol and kind the listing is exactly the keys stored under them |
| MetaDB.BoltDB.UpdateEnvelopeExpiryIndex | store/metadb/bolt.go:1222-1260 | The method replaces the old entry of both buckets by the new one |
| MetaDB.BoltDB.GetExpiredEnvelopes | store/metadb/bolt.go:1268-1298 | The early-exit scan returns the earliest expired keys up to the limit |
| MetaDB.ExpiredPrefix | store/metadb/bolt.go:1278-1283 | The expired keys are the first of the forward bucket, so stopping early loses none |
| MetaDB.BoltDB.DeleteExpiredEnvelope | store/metadb/bolt.go:1302-1352 | Deletes exactly while the reverse index matches the snapshot |
| Reaper.SelectionIsExact | store/metadb/bolt.go:1268-1298 | The selection holds only envelopes whose indexed expiry is before the cutoff, as many as exist up to the limit, in index order, and none left out is earlier |
| Reaper.SelectionIsInTimeOrder | store/metadb/bolt.go:1268-1298 | While stored expiries are in range, the same of the true times |
| Reaper.ExpiredIsDueExactly | store/metadb/bolt.go:1249-1254 | For every cutoff an envelope counts as expired exactly when it is due, if and only if its expiry is at most 9223372036854 ms |
| Reaper.ExpiredSetIsDueExactly | store/metadb/bolt.go:1268-1298 | The reaper sees exactly the due envelopes at every cutoff if and only if all stored expiries are in that range |
| Reaper.FarFutureIsReaped | store/metadb/envelope_index.go:277-299 | An envelope one millisecond beyond the range is expired at every time after 1970 although it is not due |
| Reaper.ReapIsSafe | store/metadb/bolt.go:1302-1352 | Whatever transactions land in between, a successful delete removes only an envelope whose current expiry is the snapshot's and before the cutoff, and due when in range; nothing else is touched and all invariants hold |
| Reaper.BatchIsSafe | store/metadb/envelope_reaper.go:147-188 | The same for every deletion of a batch, with any transactions between any two of them |
| MetaRuns.AppliedAllValid | store/metadb/bolt.go:938-1352 | The envelope invariants hold after any sequence of transactions |
| Reaper.DroppedIsRemoved | store/metadb/bolt.go:1322-1347 | One deletion lowers counts by the number of removed envelopes that named each hash |
| Reaper.RemovedTwice | store/metadb/envelope_reaper.go:147-188 | Deletions of different envelopes add up |
| Reaper.EnvelopeReaper.ReapBatch | store/metadb/envelope_reaper.go:147-188 | With any failures, a cancellation and any transactions landing between its steps, does one conditional delete for each selected entry it reaches and counts those that succeeded |
| Reaper.BatchAlone | store/metadb/envelope_reaper.go:147-188 | A batch that runs alone removes only expired envelopes, a full limit of them when it asks for more, and all of them when it does not and nothing went wrong |
| Reaper.EnvelopeReaper.ReapNow | store/metadb/envelope_reaper.go:192-215 | Terminates; without failures leaves exactly the envelopes not expired, which in range are those not due, returns the number removed and lowers counts accordingly |
| Reaper.EnvelopeReaper.ReapCycle | store/metadb/envelope_reaper.go:104-143 | Terminates for any clock, failures and cancellation and removes only envelopes expired at one of its readings. When nothing fails and the clock does not go back, a cycle with time for m batches removes as many of those expired at its start as m batches hold, and all of them when the time does not run out; the first batch in time is full or complete. Statistics are kept unless cancelled between batches |
| Operations.VerifyEnvelopeRefcounts | store/metadb/operations.go:24-96 | Reports exactly the rows that differ from the totals, and the counted hashes without a row, of the database as it is when the rows are read |
| Operations.VerifyRaceExactly | store/metadb/operations.go:24-96 | Nothing to report if and only if the rows read later fit the envelopes counted earlier |
| Operations.VerifyIsExact | store/metadb/operations.go:24-96 | Nothing to report if and only if every count is exact and every named hash has a row |
| Operations.RebuildEnvelopeRefcounts | store/metadb/operations.go:101-161 | Sets the count of every row it finds to the total computed before other transactions landed, and returns how many differed |
| Operations.RebuildRaceExactly | store/metadb/operations.go:101-161 | The result is exact if and only if every row's hash was named by as many envelopes when it counted as when it wrote |
| Operations.RebuildMissesStore | store/metadb/operations.go:101-161 | An envelope stored in between leaves its blob with count zero |
| Operations.RebuildSettles | store/metadb/operations.go:101-161 | Afterwards only hashes without rows can be reported, and a second rebuild changes nothing |
| Operations.ReferencesAreReferrers | store/metadb/operations.go:33-42 | The computed total is the number of envelopes that name the hash |
| Envelopes.ValidateDigestFormat | store/metadb/envelope.go:210-237 | Accepts exactly a known algorithm in any case, a colon and 64 hexadecimal digits |
| Envelopes.ValidDigestExactly | store/metadb/envelope.go:210-237 | Which texts are valid, byte by byte |
| Envelopes.LowerIsLowerCase | store/metadb/envelope.go:240-258 | Lowering changes the letters A to Z and nothing else |
| Envelopes.LowerKeepsDigest | store/metadb/envelope.go:240-258 | Canonical form keeps a reference valid |
| Envelopes.CanonicalizeRefs | store/metadb/envelope.go:240-258 | The loop and sort give the canonical references |
| Envelopes.CanonicalMembers | store/metadb/envelope.go:240-258 | They are lower-case, ascending, duplicate-free and name exactly the given references |
| Envelopes.CanonicalIsCanonical | store/metadb/envelope.go:240-258 | They are a fixed point and independent of order, case and repetition |
| Envelopes.DiffRefs | store/metadb/envelope.go:262-285 | Returns the added and the removed references in order |
| Envelopes.MinusAscending | store/metadb/envelope.go:262-285 | Differences of ordered references are ordered |
| Buckets.DecodeEncode | store/metadb/buckets.go:33-52 | Decoding an encoded time gives it back exactly when it fits in 64-bit nanoseconds |
| Buckets.EncodeDecode | store/metadb/buckets.go:33-52 | Encoding a decoded time gives back the same eight bytes |
| Buckets.TimestampOrder | store/metadb/buckets.go:30-40 | Byte order of encoded times is the order of their nanoseconds, over all 64-bit values |
| Buckets.ExpiryNanosExact | store/metadb/bolt.go:1249-1254 | Which millisecond expiries are indexed at their own time |
| Buckets.MakeEnvelopeKey | store/metadb/buckets.go:106-119 | The buffer filled through a moving offset is the compound key |
| Buckets.MakeEnvelopeExpiryKey | store/metadb/buckets.go:144-159 | The buffer is the encoded time followed by the compound key |
| Buckets.KeyBytes | store/metadb/buckets.go:106-159 | The bytes of both keys: the parts with a NUL between them, after eight big-endian bytes of nanoseconds counted from the least 64-bit integer |
| Buckets.ParseEnvelopeKey | store/metadb/buckets.go:122-140 | The loop cuts at the first two NULs, and gives the whole as protocol when there are fewer |
| Buckets.ParseBuilt | store/metadb/buckets.go:106-140 | Parsing inverts building if and only if protocol and kind are NUL-free, for any key bytes |
| Buckets.BuildParsed | store/metadb/buckets.go:106-140 | Building from parsed parts restores every key with two separators |
| Buckets.KeysInjective | store/metadb/buckets.go:106-119 | Keys of NUL-free protocols and kinds are injective |
| Buckets.KeysCollideWithNul | store/metadb/buckets.go:106-119 | Two triples that share a key otherwise |
| Cafs.CAFS.PutWithResult | store/cafs.go:93-185 | Row, file, queue in this order with rollback; which result comes when and what the row then holds; every file has a row before and after each effect |
| Cafs.CAFS.Delete | store/cafs.go:251-275 | File, row, queue in this order; every file keeps its row |
| Cafs.Collector.DeleteBlob | store/gc/phases.go:160-192 | Stops at the first failure, and notifies the evictor only after both deletions |
| Cafs.Collector.PhaseDeleteUnreferenced | store/gc/phases.go:59-93 | Deletes what one selection returned and tallies deletions, bytes and errors |
| Cafs.Collector.PhaseDeleteOrphans | store/gc/phases.go:96-157 | Deletes listed files without a row under either key, within the batch size, and tallies deletions, bytes and errors |
| StoreSteps.SweepRestoresRows | store/gc/phases.go:96-157 | Never deletes a file that has a row; when at most a batch of orphans exist it leaves only those whose lookup or deletion failed |
| StoreSteps.SweepReportsDeletions | store/gc/phases.go:145-152 | The number and bytes reported are those by which the files on disk shrank |
| CrashSteps.FilesAlwaysHaveRows | store/cafs.go:112-173 | At every point of any interleaving of operations on different hashes, with any failures and crashes, every file has a row |
| CrashSteps.PutIsItsEffects | store/cafs.go:112-173 | A put is its effects in that order |
| CrashSteps.DropIsItsEffects | store/s3fifo/s3fifo.go:636-653 | Eviction, collection and explicit deletion are file first, then row |
| CrashSteps.EffectKeepsRowsExactly | store/s3fifo/s3fifo.go:636-653 | An effect keeps a row for every file if and only if it is not a file write without the row or a row deletion with the file |
| CrashSteps.OverlapLeavesOrphan | store/cafs.go:112-173 | From any state that stores a blob, a put between the two effects of a deletion of it leaves a file without a row |
| Uploads.LeasesAreSafe | protocol/buildcache/uploads.go:52-94 | After every run at most one lease per pair, fresh generations, every lease with its expiry ahead, the gauge equal to the number of leases, and no ended lease registered again |
| Uploads.StaleLeasesDoNothing | protocol/buildcache/uploads.go:74-94 | After a lease ended, releasing it again or running its expiry late changes nothing that is registered, whatever happened in between |
| Uploads.EndingALease | protocol/buildcache/uploads.go:81-94 | A release or expiry ends its own lease and leaves all others and their timers; a release stops the timer of the lease it ends |
| Uploads.GoneForever | protocol/buildcache/uploads.go:61-62 | A lease that is no longer registered never becomes registered again |
| Uploads.StepKeepsInv | protocol/buildcache/uploads.go:52-94 | Every acquisition, release, expiry and report keeps the registry's invariant |
| Uploads.UploadRegistry.AcquireLease | protocol/buildcache/uploads.go:52-72 | Refuses a taken pair without any change; otherwise registers the next generation and arms its timer |
| Uploads.UploadRegistry.Remove | protocol/buildcache/uploads.go:81-94 | Removes only the entry of the same generation |
| Uploads.UploadRegistry.RunExpiry | protocol/buildcache/uploads.go:65-67 | A late expiry acts only on the lease it was armed for |

## Left out

- HTTP handlers, upstream clients, credentials, telemetry other than the upload gauge, and logging: plumbing.
- The database engine, batching and retries, and the JSON and protobuf encodings: a transaction is one atomic step and rows that cannot be decoded do not occur.
- Hash functions, temporary files and compression: a hash stands for its content and a file write is all or nothing.
- The storage key layout of blobs and references with another algorithm: a file is named by its hash, and a hash that cannot be parsed counts as a failed deletion.
- Rows under a plain digest: the orphan phase looks for them, but no modelled operation writes them.
- The legacy two-part metadata path and the first collection phase that serves it.
- The standalone increment and decrement of a reference count, which have no envelope behind them.
- `PutFramed`, which writes a header before the same sequence of row, file and admission as a put.
- Envelope fields that no modelled operation reads; the attribute map is its number of keys and total value size.
- Non-ASCII letters: references are lowered byte by byte, while the library lowers Unicode.
- Overflow of sequence numbers, generations, counters and sizes: unbounded integers; 64 bits only where times are encoded.
- Tickers, goroutine start and stop, and context cancellation other than the reaper's.
- The two transactions of a second chance are one step of the evictor; MetaState.NewRowCounts and MetaRuns.DisciplineIsNeeded give the exact effect of an envelope write between them on the counts.
- Lifecycle.ReferencedBlobsSurvive: takes each operation with its failures as one step, stores references only to stored blobs and deletes by hand only unpinned blobs; Lifecycle.StoredIntact and Lifecycle.LateDeletionExactly show that these conditions are needed.
- Lifecycle.StoreIsAccounted: only for runs in which nothing fails, since a failed call may leave a row without its file or an entry out of its queue.
- CrashSteps.FilesAlwaysHaveRows: operations on one hash do not overlap; CrashSteps.EffectKeepsRowsExactly and CrashSteps.OverlapLeavesOrphan show that this is needed.
- S3Fifo.Manager.ScanEvictionQueue: nothing lands between two candidates and the scan is not cancelled; Interleaving.NeverUnderCounts covers admissions and removals between selections.
- S3Fifo.Manager.MaybeEvict: nothing lands while the deletion runs outside the lock; Interleaving.NeverUnderCounts and Lifecycle.LateDeletionExactly say what can.
- Reaper.EnvelopeReaper.ReapNow: no other transaction lands during the drain, since a writer could keep it going forever; Reaper.BatchIsSafe covers any that do.
- Reaper.EnvelopeReaper.ReapCycle: no other transaction lands during the cycle either.
- Lifecycle.RunKeeps: takes a rebuild as one step; Operations.RebuildRaceExactly says when it is like one.
