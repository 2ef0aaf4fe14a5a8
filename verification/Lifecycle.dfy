/** The blob lifecycle end to end: whole runs of puts, touches, evictions, collections, sweeps and
    envelope transactions. Each of them is one step, and any call inside it may fail. */
module Lifecycle {
  import opened ByteStrings
  import opened Buckets
  import opened Fifo
  import opened Queues
  import opened Blobs
  import opened Envelopes
  import opened MetaState
  import opened MetaDB
  import opened CacheSteps
  import opened Drain
  import opened StoreSteps
  import opened Operations
  import opened Accounting
  import opened Outcomes
  import opened Collection

  // ---- The store and its steps ----

  datatype Store = Store(cache: Cache, envelopes: map<Bytes, Envelope>, refs: map<Bytes, seq<Hash>>, index: Index)

  function DbOf(s: Store): DB { DB(s.envelopes, s.refs, s.index, s.cache.rows) }

  function WithDb(s: Store, db: DB): Store {
    Store(s.cache.(rows := db.blobs), db.envelopes, db.refs, db.index)
  }

  /** Each step with the pattern of failures inside it. An envelope transaction or a touch that fails is
      rolled back and so is no step at all. */
  datatype Op =
    | PutContent(h: Hash, now: Time, putFaults: PutFaults)
    | Access(h: Hash, now: Time)
    | DeleteUnreferenced(h: Hash, dropFaults: DropFaults)
    | EvictOnce(runFaults: RunFaults)
    | Collect(before: Option<Time>, limit: int, queryFails: bool, plan: DropPlan)
    | Sweep(batchSize: nat, sweepFaults: SweepFaults)
    | PutEnv(parts: KeyParts, envelope: Envelope)
    | UpdateEnv(parts: KeyParts, answer: Update)
    | DeleteEnv(parts: KeyParts)
    | Reap(entry: ExpiryEntry)
    | Rebuild
    | Restart(unreadable: set<Hash>)

  function KeyOf(p: KeyParts): Bytes { EnvelopeKey(p.protocol, p.kind, p.key) }

  /** A caller stores references only to blobs that are stored, and deletes by hand only a blob whose count
      is zero. */
  ghost predicate Allowed(s: Store, op: Op) {
    match op
    case DeleteUnreferenced(h, _) => !Pinned(s.cache.rows, h)
    case PutEnv(_, e) => NamesStored(s, e)
    case UpdateEnv(_, u) => u.Replace? ==> NamesStored(s, u.envelope)
    case _ => true
  }

  predicate IsStored(s: Store, h: Hash) { h in s.cache.rows && h in s.cache.files }

  ghost predicate NamesStored(s: Store, e: Envelope) {
    forall h :: h in CanonicalRefs(e.blobRefs) ==> IsStored(s, h)
  }

  /** No call inside the step fails. */
  ghost predicate FailureFree(op: Op) {
    match op
    case PutContent(_, _, f) => f == NO_PUT_FAULT
    case DeleteUnreferenced(_, f) => f == NO_DROP_FAULT
    case EvictOnce(f) => Quiet(f)
    case Collect(_, _, _, plan) => forall h :: plan(h) == NO_DROP_FAULT
    case Restart(unreadable) => unreadable == {}
    case _ => true
  }

  ghost function Done(cfg: Config, s: Store, op: Op, sz: Hash -> nat): Store {
    match op
    case PutContent(h, now, f) => s.(cache := Put(s.cache, h, sz(h), now, f).0)
    case Access(h, now) =>
      if h in s.cache.rows then s.(cache := s.cache.(rows := Touched(s.cache.rows, h, now))) else s
    case DeleteUnreferenced(h, f) => s.(cache := DeleteContent(s.cache, h, f).0)
    case EvictOnce(f) => s.(cache := MaybeEvict(cfg, s.cache, f).c)
    case Collect(before, limit, fails, plan) => s.(cache := CollectPhase(s.cache, before, limit, fails, plan).0)
    case Sweep(n, f) => s.(cache := SweepOrphans(s.cache, n, f))
    case PutEnv(p, e) => WithDb(s, PutEnvelopeTx(DbOf(s), KeyOf(p), e))
    case UpdateEnv(p, u) => WithDb(s, UpdateTx(DbOf(s), KeyOf(p), u))
    case DeleteEnv(p) => WithDb(s, Dropped(DbOf(s), KeyOf(p)))
    case Reap(x) => WithDb(s, ReapTx(DbOf(s), x))
    case Rebuild => WithDb(s, Rebuilt(DbOf(s)))
    case Restart(unreadable) => s.(cache := Recomputed(s.cache, unreadable))
  }

  // ---- What every step keeps ----

  /** Every blob that an envelope names has its row and its file. */
  ghost predicate Intact(s: Store) {
    forall k, h :: k in s.refs && h in s.refs[k] ==> IsStored(s, h)
  }

  ghost predicate Kept(s: Store) { Valid(DbOf(s)) && Exact(DbOf(s)) && Intact(s) }

  /** Exact counts pin exactly the blobs that an envelope names. */
  lemma PinnedIsNamed(s: Store, h: Hash)
    requires Exact(DbOf(s)) && h in s.cache.rows
    ensures Pinned(s.cache.rows, h) <==> exists k :: k in s.refs && h in s.refs[k]
  {
    assert h in DbOf(s).blobs;
    if Referrers(s.refs, h) != {} {
      var k :| k in Referrers(s.refs, h);
      assert k in s.refs && h in s.refs[k];
    } else {
      forall k | k in s.refs && h in s.refs[k] ensures false { SomeReferrer(s.refs, k, h); }
    }
  }

  /** Pinned rows keep their count and file; every other row that is left has count zero. */
  ghost predicate Spares(c: Cache, d: Cache) {
    && (forall h :: Pinned(c.rows, h) ==>
          h in d.rows && d.rows[h].refCount == c.rows[h].refCount && (h in c.files ==> h in d.files))
    && (forall h :: h in d.rows && !Pinned(c.rows, h) ==> d.rows[h].refCount == 0)
  }

  lemma SparesBoth(c: Cache, d: Cache, e: Cache)
    requires Spares(c, d) && Spares(d, e)
    ensures Spares(c, e)
  {
  }

  /** A step of the cache that spares what is pinned keeps everything. */
  lemma SparingKeeps(s: Store, c: Cache)
    requires Kept(s) && Spares(s.cache, c)
    ensures Kept(s.(cache := c))
  {
    hide Referrers, Valid, Spares;
    var t := s.(cache := c);
    SparedRows(s.cache, c);
    forall k, h | k in t.refs && h in t.refs[k] ensures IsStored(t, h) {
      assert IsStored(s, h);
      PinnedIsNamed(s, h);
    }
    forall h | h in c.rows ensures c.rows[h].refCount == |Referrers(s.refs, h)| {
      SparedCount(s, c, h);
    }
    assert Valid(DbOf(t)) by { SameValid(DbOf(s), c.rows); }
  }

  lemma SparedRows(c: Cache, d: Cache)
    requires Spares(c, d)
    ensures forall h :: Pinned(c.rows, h) && h in c.files ==> h in d.rows && h in d.files
  {
  }

  lemma SparedCount(s: Store, c: Cache, h: Hash)
    requires Kept(s) && Spares(s.cache, c) && h in c.rows
    ensures c.rows[h].refCount == |Referrers(s.refs, h)|
  {
    hide Valid;
    if Pinned(s.cache.rows, h) {
      assert h in DbOf(s).blobs;
    } else {
      if Referrers(s.refs, h) != {} {
        var k :| k in Referrers(s.refs, h);
        assert k in s.refs && h in s.refs[k];
        assert IsStored(s, h);
        PinnedIsNamed(s, h);
      }
    }
  }

  lemma SameValid(db: DB, rows: Rows)
    requires Valid(db)
    ensures Valid(db.(blobs := rows))
  {
    hide Mirrored, Coherent, IndexMatches;
  }

  // ---- Steps of the cache, whatever fails ----

  /** A put writes or takes back a row only for a hash without a file. */
  lemma PutSpares(c: Cache, h: Hash, size: nat, now: Time, f: PutFaults)
    requires Pinned(c.rows, h) ==> h in c.files
    ensures Spares(c, Put(c, h, size, now, f).0)
  {
    hide Admit;
    AdmitKeepsDisk(c.(rows := c.rows[h := BlobEntry(size, now, now, 0, 0)], files := c.files + {h}), h, size, f.admit);
  }

  /** Each of the three deletions spares all but its hash. */
  lemma DropSpares(c: Cache, h: Hash, f: DropFaults, g: DeleteFaults)
    requires !Pinned(c.rows, h)
    ensures Spares(c, DeleteContent(c, h, f).0)
    ensures Spares(c, CollectBlob(c, h, f).0)
    ensures Spares(c, DeleteFromBackend(c, h, g).0)
  {
    hide Remove;
    var kept := c.(files := c.files - {h}, rows := if f.row then c.rows else c.rows - {h});
    RemoveKeepsDisk(kept, h, RowSize(c, h, f.get), f.remove);
    RemoveKeepsDisk(kept, h, RowSize(c, h, false), f.remove);
  }

  lemma {:induction false} CollectSpares(c: Cache, hs: seq<Hash>, plan: DropPlan)
    requires forall h :: h in hs ==> !Pinned(c.rows, h)
    ensures Spares(c, CollectAll(c, hs, plan).0)
  {
    hide CollectBlob, DeleteContent;
    if hs != [] {
      var n := |hs| - 1;
      var d := CollectAll(c, hs[..n], plan).0;
      CollectSpares(c, hs[..n], plan);
      assert !Pinned(c.rows, hs[n]);
      DropSpares(d, hs[n], plan(hs[n]), DeleteFaults(true, true));
      SparesBoth(c, d, CollectBlob(d, hs[n], plan(hs[n])).0);
    }
  }

  /** A selection drops no row and no file, and hands over only what is not pinned. */
  ghost predicate Selects(c: Cache, o: Outcome) {
    && Spares(c, o.c)
    && (o.d.Evicting? ==> !Pinned(o.c.rows, o.d.pending.hash))
  }

  lemma EvictSelects(c: Cache, queue: QueueName, f: EvictFaults)
    ensures Selects(c, EvictFrom(c, queue, f))
  {
    hide Push;
  }

  lemma {:induction false} ScanSelects(cfg: Config, c: Cache, queue: QueueName, attempts: int, plan: FaultPlan)
    ensures Selects(c, Scan(cfg, c, queue, attempts, plan))
    decreases attempts
  {
    hide EvictFrom;
    if attempts > 0 && !ScanStops(cfg, c, queue) {
      var o := EvictFrom(c, queue, plan(attempts));
      EvictSelects(c, queue, plan(attempts));
      if o.d.Skipped? {
        ScanSelects(cfg, o.c, queue, attempts - 1, plan);
        SparesBoth(c, o.c, Scan(cfg, o.c, queue, attempts - 1, plan).c);
      }
    }
  }

  lemma FinishKeepsDisk(cfg: Config, c: Cache, p: Pending, f: FinishFaults, fails: bool)
    ensures var d := Finish(cfg, c, p, f); d.rows == c.rows && d.files == c.files
    ensures var d := Restore(c, p, fails); d.rows == c.rows && d.files == c.files
  {
  }

  lemma SettleSpares(cfg: Config, o: Outcome, f: RunFaults)
    requires o.d.Evicting? ==> !Pinned(o.c.rows, o.d.pending.hash)
    ensures Spares(o.c, Settle(cfg, o, f).c)
  {
    hide Finish, Restore, CollectBlob, DeleteContent;
    if o.d.Evicting? {
      var p := o.d.pending;
      DropSpares(o.c, p.hash, NO_DROP_FAULT, f.delete);
      FinishKeepsDisk(cfg, DeleteFromBackend(o.c, p.hash, f.delete).0, p, f.finish, f.restore);
    }
  }

  lemma EvictSpares(cfg: Config, c: Cache, f: RunFaults)
    ensures Spares(c, MaybeEvict(cfg, c, f).c)
  {
    hide Scan, Settle, Spares;
    assert Spares(c, c) by { SparesItself(c); }
    if Over(cfg, c) {
      var o := Scan(cfg, c, Small, c.smallLen, f.small);
      ScanSelects(cfg, c, Small, c.smallLen, f.small);
      var p := if o.d.Idle? then Scan(cfg, o.c, Main, o.c.mainLen, f.main) else o;
      ScanSelects(cfg, o.c, Main, o.c.mainLen, f.main);
      if o.d.Idle? { SparesBoth(c, o.c, p.c); }
      SettleSpares(cfg, p, f);
      SparesBoth(c, p.c, Settle(cfg, p, f).c);
    }
  }

  lemma SparesItself(c: Cache)
    ensures Spares(c, c)
  {
  }

  lemma SweepSpares(c: Cache, n: nat, f: SweepFaults)
    ensures Spares(c, SweepOrphans(c, n, f))
  {
    hide SweepOrphans;
    SweepRestoresRows(c, n, f);
    SweepChangesFiles(c, n, f);
  }

  lemma CollectPhaseSpares(c: Cache, before: Option<Time>, limit: int, fails: bool, plan: DropPlan)
    ensures Spares(c, CollectPhase(c, before, limit, fails, plan).0)
  {
    hide Unreferenced, CollectAll;
    UnreferencedMembers(c.rows, before, limit);
    CollectSpares(c, Unreferenced(c.rows, before, limit), plan);
    SparesItself(c);
  }

  lemma TouchSpares(c: Cache, h: Hash, now: Time)
    requires h in c.rows
    ensures Spares(c, c.(rows := Touched(c.rows, h, now)))
  {
  }

  // ---- Envelope steps ----

  /** An envelope transaction keeps everything when the rows stay and what is named is stored. */
  lemma DbStepKeeps(s: Store, db: DB)
    requires Kept(s) && Valid(db) && Exact(db) && db.blobs.Keys == s.cache.rows.Keys
    requires forall k, h :: k in db.refs && h in db.refs[k] ==> IsStored(s, h)
    ensures Kept(WithDb(s, db))
  {
    hide Valid, Exact;
    var t := WithDb(s, db);
    assert DbOf(t) == db;
    forall k, h | k in t.refs && h in t.refs[k] ensures IsStored(t, h) {
      assert IsStored(s, h);
      assert h in db.blobs.Keys;
    }
  }

  lemma DroppedKeeps(s: Store, k: Bytes)
    requires Kept(s)
    ensures Kept(WithDb(s, Dropped(DbOf(s), k)))
  {
    hide Valid, Exact, Unindexed, Decreased;
    DroppedValid(DbOf(s), k);
    DroppedCounts(DbOf(s), k);
    DbStepKeeps(s, Dropped(DbOf(s), k));
  }

  lemma StoredKeeps(s: Store, k: Bytes, e: Envelope)
    requires Kept(s) && HasTwoNuls(k) && NoDup(e.blobRefs) && forall h :: h in e.blobRefs ==> IsStored(s, h)
    ensures Kept(WithDb(s, Stored(DbOf(s), k, e)))
  {
    hide Valid, Exact, Reindexed, Decreased, Increased, HasTwoNuls, NoDup;
    StoredValid(DbOf(s), k, e);
    StoredCounts(DbOf(s), k, e);
    DbStepKeeps(s, Stored(DbOf(s), k, e));
  }

  lemma PutEnvKeeps(s: Store, p: KeyParts, e: Envelope)
    requires Kept(s) && NamesStored(s, e)
    ensures Kept(WithDb(s, PutEnvelopeTx(DbOf(s), KeyOf(p), e)))
  {
    hide Kept, Stored, CanonicalRefs, EnvelopeKey, HasTwoNuls, NoDup, Ascending, ValidEnvelope;
    if ValidEnvelope(e) {
      KeyHasTwoNuls(p.protocol, p.kind, p.key);
      CanonicalMembers(e.blobRefs);
      StoredKeeps(s, KeyOf(p), Canonical(e));
    } else {
      assert WithDb(s, DbOf(s)) == s;
    }
  }

  lemma UpdateEnvKeeps(s: Store, p: KeyParts, u: Update)
    requires Kept(s) && (u.Replace? ==> NamesStored(s, u.envelope))
    ensures Kept(WithDb(s, UpdateTx(DbOf(s), KeyOf(p), u)))
  {
    hide Kept, PutEnvelopeTx, Dropped, KeyOf, NamesStored;
    match u
    case Abort => assert WithDb(s, DbOf(s)) == s;
    case Delete => DroppedKeeps(s, KeyOf(p));
    case Replace(e) => PutEnvKeeps(s, p, e);
  }

  lemma ReapKeeps(s: Store, x: ExpiryEntry)
    requires Kept(s)
    ensures Kept(WithDb(s, ReapTx(DbOf(s), x)))
  {
    hide Kept, Dropped, StillExpires, EntryKey;
    assert WithDb(s, DbOf(s)) == s;
    DroppedKeeps(s, EntryKey(x));
  }

  /** Where every count is exact a rebuild changes nothing. */
  lemma RebuildKeeps(s: Store)
    requires Kept(s)
    ensures WithDb(s, Rebuilt(DbOf(s))) == s
  {
    hide References, Valid;
    var db := DbOf(s);
    forall k, h | k in db.refs && h in db.refs[k] ensures h in db.blobs { assert IsStored(s, h); }
    forall h | h in db.blobs ensures Rebuilt(db).blobs[h] == db.blobs[h] {
      ReferencesAreReferrers(db, h);
    }
    assert Rebuilt(db).blobs == db.blobs;
  }

  // ---- Referential integrity over whole runs ----

  predicate OnlyCache(op: Op) {
    op.PutContent? || op.Access? || op.DeleteUnreferenced? || op.EvictOnce? || op.Collect? || op.Sweep? || op.Restart?
  }

  lemma CacheStepSpares(cfg: Config, s: Store, op: Op, sz: Hash -> nat)
    requires Kept(s) && Allowed(s, op) && OnlyCache(op)
    ensures var t := Done(cfg, s, op, sz); t == s.(cache := t.cache) && Spares(s.cache, t.cache)
  {
    hide Kept, Put, Touched, DeleteContent, CollectBlob, DeleteFromBackend, MaybeEvict, CollectPhase, SweepOrphans,
      Recomputed, Spares;
    match op
    case PutContent(h, now, f) => PinnedHasFile(s, h); PutSpares(s.cache, h, sz(h), now, f);
    case Access(h, now) => if h in s.cache.rows { TouchSpares(s.cache, h, now); } else { SparesItself(s.cache); }
    case DeleteUnreferenced(h, f) => DropSpares(s.cache, h, f, DeleteFaults(true, true));
    case EvictOnce(f) => EvictSpares(cfg, s.cache, f);
    case Collect(before, limit, fails, plan) => CollectPhaseSpares(s.cache, before, limit, fails, plan);
    case Sweep(n, f) => SweepSpares(s.cache, n, f);
    case Restart(unreadable) => RecountSpares(s.cache, unreadable);
  }

  /** Whatever fails inside a step, named blobs keep their rows and files and counts stay exact. */
  lemma StepKeeps(cfg: Config, s: Store, op: Op, sz: Hash -> nat)
    requires Kept(s) && Allowed(s, op)
    ensures Kept(Done(cfg, s, op, sz))
  {
    hide Kept, PutEnvelopeTx, UpdateTx, Dropped, ReapTx, Rebuilt, WithDb, NamesStored, Spares;
    if OnlyCache(op) {
      hide Done;
      CacheStepSpares(cfg, s, op, sz);
      SparingKeeps(s, Done(cfg, s, op, sz).cache);
    } else {
      match op
      case PutEnv(p, e) => PutEnvKeeps(s, p, e);
      case UpdateEnv(p, u) => UpdateEnvKeeps(s, p, u);
      case DeleteEnv(p) => DroppedKeeps(s, KeyOf(p));
      case Reap(x) => ReapKeeps(s, x);
      case Rebuild => RebuildKeeps(s);
    }
  }

  lemma RecountSpares(c: Cache, unreadable: set<Hash>)
    ensures Spares(c, Recomputed(c, unreadable))
  {
    hide Sum, SizeIn;
  }

  lemma PinnedHasFile(s: Store, h: Hash)
    requires Kept(s)
    ensures Pinned(s.cache.rows, h) ==> h in s.cache.files
  {
    hide Valid, Exact;
    if Pinned(s.cache.rows, h) {
      PinnedIsNamed(s, h);
      var k :| k in s.refs && h in s.refs[k];
      assert IsStored(s, h);
    }
  }

  ghost predicate AllAllowed(cfg: Config, s: Store, ops: seq<Op>, sz: Hash -> nat)
    decreases |ops|
  {
    ops == [] || (Allowed(s, ops[0]) && AllAllowed(cfg, Done(cfg, s, ops[0], sz), ops[1..], sz))
  }

  ghost function AllDone(cfg: Config, s: Store, ops: seq<Op>, sz: Hash -> nat): Store
    decreases |ops|
  {
    if ops == [] then s else AllDone(cfg, Done(cfg, s, ops[0], sz), ops[1..], sz)
  }

  const EMPTY_STORE: Store :=
    Store(Cache([], [], [], 0, 0, 0, 0, 0, map[], {}), map[], map[], Index(map[], map[]))

  lemma {:induction false} RunKeeps(cfg: Config, s: Store, ops: seq<Op>, sz: Hash -> nat)
    requires Kept(s) && AllAllowed(cfg, s, ops, sz)
    ensures Kept(AllDone(cfg, s, ops, sz))
    decreases |ops|
  {
    hide Kept, Allowed, Done;
    if ops != [] {
      StepKeeps(cfg, s, ops[0], sz);
      RunKeeps(cfg, Done(cfg, s, ops[0], sz), ops[1..], sz);
    }
  }

  lemma EmptyKept()
    ensures Kept(EMPTY_STORE)
  {
  }

  lemma NamedIsCounted(s: Store, k: Bytes, h: Hash)
    requires Kept(s) && k in s.envelopes && h in s.envelopes[k].blobRefs
    ensures IsStored(s, h) && s.cache.rows[h].refCount == |Referrers(s.refs, h)| > 0
  {
    hide Referrers, Coherent, IndexMatches;
    assert k in s.refs && h in s.refs[k];
    assert IsStored(s, h);
    SomeReferrer(s.refs, k, h);
    assert h in DbOf(s).blobs;
  }

  /** After every run from the empty store, whatever failed in it, each blob that a stored envelope names
      has its row, with the exact number of naming envelopes as its count, and its file. */
  lemma ReferencedBlobsSurvive(cfg: Config, ops: seq<Op>, sz: Hash -> nat)
    requires AllAllowed(cfg, EMPTY_STORE, ops, sz)
    ensures var s := AllDone(cfg, EMPTY_STORE, ops, sz);
            forall k, h :: k in s.envelopes && h in s.envelopes[k].blobRefs ==>
              h in s.cache.rows && h in s.cache.files
              && s.cache.rows[h].refCount == |Referrers(s.refs, h)| > 0
  {
    hide AllAllowed, AllDone, Kept, Referrers;
    EmptyKept();
    RunKeeps(cfg, EMPTY_STORE, ops, sz);
    var s := AllDone(cfg, EMPTY_STORE, ops, sz);
    forall k, h | k in s.envelopes && h in s.envelopes[k].blobRefs
      ensures h in s.cache.rows && h in s.cache.files
      ensures s.cache.rows[h].refCount == |Referrers(s.refs, h)| > 0
    {
      NamedIsCounted(s, k, h);
    }
  }

  // ---- Accounting over runs without failures ----

  lemma StoredSameBlobs(rows: Rows, added: seq<Hash>, removed: seq<Hash>)
    ensures SameBlobs(rows, Decreased(Increased(rows, added), removed))
  {
  }

  lemma DroppedSameBlobs(rows: Rows, removed: seq<Hash>)
    ensures SameBlobs(rows, Decreased(rows, removed))
  {
  }

  /** Every transaction on envelopes changes rows in their counts only. */
  lemma DbStepSameBlobs(db: DB, k: Bytes, u: Update, x: ExpiryEntry)
    ensures SameBlobs(db.blobs, UpdateTx(db, k, u).blobs)
    ensures SameBlobs(db.blobs, ReapTx(db, x).blobs)
  {
    hide Reindexed, Unindexed, SameBlobs, Increased, Decreased, StillExpires, ValidEnvelope, CanonicalRefs, Minus;
    var prior := RefsOf(db, k);
    if u.Replace? {
      var next := Canonical(u.envelope).blobRefs;
      StoredSameBlobs(db.blobs, Minus(next, prior), Minus(prior, next));
    }
    DroppedSameBlobs(db.blobs, prior);
    DroppedSameBlobs(db.blobs, RefsOf(db, EntryKey(x)));
    assert SameBlobs(db.blobs, db.blobs) by { SameBlobsItself(db.blobs); }
  }

  lemma SameBlobsItself(rows: Rows)
    ensures SameBlobs(rows, rows)
  {
  }

  lemma PutKeepsAccount(c: Cache, h: Hash, now: Time, sz: Hash -> nat)
    requires Accounted(c, sz)
    ensures Accounted(Put(c, h, sz(h), now, NO_PUT_FAULT).0, sz)
  {
    hide Accounted, Admit;
    assert h in c.files <==> h in c.rows by { FilesAreRows(c, sz); }
    if h in c.files {
      TouchKeepsAccount(c, h, now, sz);
    } else {
      AdmitAccounted(c, h, BlobEntry(sz(h), now, now, 0, 0), sz);
    }
  }

  lemma FilesAreRows(c: Cache, sz: Hash -> nat)
    requires Accounted(c, sz)
    ensures c.files == c.rows.Keys
  {
  }

  lemma TouchKeepsAccount(c: Cache, h: Hash, now: Time, sz: Hash -> nat)
    requires Accounted(c, sz) && h in c.rows
    ensures Accounted(c.(rows := Touched(c.rows, h, now)), sz)
  {
    hide Accounted;
    RowsChangeAccounted(c, Touched(c.rows, h, now), sz);
  }

  lemma EvictKeepsAccount(cfg: Config, c: Cache, f: RunFaults, sz: Hash -> nat)
    requires Accounted(c, sz) && Quiet(f)
    ensures Accounted(MaybeEvict(cfg, c, f).c, sz)
  {
    hide MaybeEvict, After, NextEvent, NoDup, Sum;
    RunDoesNextEvent(cfg, c, sz, f);
    AfterAccounted(cfg, c, sz);
  }

  lemma RestartKeepsAccount(cfg: Config, c: Cache, sz: Hash -> nat)
    requires Accounted(c, sz)
    ensures Recomputed(c, {}) == c
  {
    hide NoDup, Sum;
    RestartIsTransparent(cfg, c, {}, sz);
  }

  lemma StepKeepsAccount(cfg: Config, s: Store, op: Op, sz: Hash -> nat)
    requires Kept(s) && Accounted(s.cache, sz) && FailureFree(op)
    ensures Accounted(Done(cfg, s, op, sz).cache, sz)
  {
    hide Kept, Accounted, Put, Touched, DeleteContent, MaybeEvict, CollectAll, Unreferenced, SweepOrphans,
      PutEnvelopeTx, Dropped, ReapTx, Rebuilt, Erased, Recomputed, SameBlobs;
    match op
    case PutContent(h, now, f) => PutKeepsAccount(s.cache, h, now, sz);
    case Access(h, now) => if h in s.cache.rows { TouchKeepsAccount(s.cache, h, now, sz); }
    case DeleteUnreferenced(h, f) =>
      CollectedIsErased(s.cache, h, f);
      ErasedAccounted(s.cache, h, sz);
    case EvictOnce(f) => EvictKeepsAccount(cfg, s.cache, f, sz);
    case Collect(before, limit, fails, plan) =>
      CollectAccounted(s.cache, Unreferenced(s.cache.rows, before, limit), plan, sz);
    case Sweep(n, f) => SweepKeeps(s.cache, n, f, sz);
    case PutEnv(p, e) => TxKeepsAccount(s, UpdateTx(DbOf(s), KeyOf(p), Replace(e)), KeyOf(p), Replace(e), sz);
    case UpdateEnv(p, u) => TxKeepsAccount(s, UpdateTx(DbOf(s), KeyOf(p), u), KeyOf(p), u, sz);
    case DeleteEnv(p) => TxKeepsAccount(s, UpdateTx(DbOf(s), KeyOf(p), Delete), KeyOf(p), Delete, sz);
    case Reap(x) =>
      DbStepSameBlobs(DbOf(s), EntryKey(x), Abort, x);
      RowsChangeAccounted(s.cache, ReapTx(DbOf(s), x).blobs, sz);
    case Rebuild => RebuildKeeps(s);
    case Restart(unreadable) => RestartKeepsAccount(cfg, s.cache, sz);
  }

  lemma TxKeepsAccount(s: Store, db: DB, k: Bytes, u: Update, sz: Hash -> nat)
    requires Accounted(s.cache, sz) && db == UpdateTx(DbOf(s), k, u)
    ensures Accounted(WithDb(s, db).cache, sz)
  {
    hide Accounted, UpdateTx, ReapTx, SameBlobs;
    DbStepSameBlobs(DbOf(s), k, u, ExpiryEntry(KeyParts([], [], []), 0));
    RowsChangeAccounted(s.cache, db.blobs, sz);
  }

  lemma {:induction false} RunKeepsAccount(cfg: Config, s: Store, ops: seq<Op>, sz: Hash -> nat)
    requires Kept(s) && Accounted(s.cache, sz) && AllAllowed(cfg, s, ops, sz)
    requires forall op :: op in ops ==> FailureFree(op)
    ensures Accounted(AllDone(cfg, s, ops, sz).cache, sz)
    decreases |ops|
  {
    hide Kept, Accounted, Allowed, Done, FailureFree;
    if ops != [] {
      assert ops[0] in ops;
      StepKeeps(cfg, s, ops[0], sz);
      StepKeepsAccount(cfg, s, ops[0], sz);
      RunKeepsAccount(cfg, Done(cfg, s, ops[0], sz), ops[1..], sz);
    }
  }

  lemma EmptyAccounted(sz: Hash -> nat)
    ensures Accounted(EMPTY_STORE.cache, sz)
  {
  }

  /** After every run without failures from the empty store: files, rows and queues hold the same blobs, and
      the counters are their number and total size. */
  lemma StoreIsAccounted(cfg: Config, ops: seq<Op>, sz: Hash -> nat)
    requires AllAllowed(cfg, EMPTY_STORE, ops, sz) && forall op :: op in ops ==> FailureFree(op)
    ensures var c := AllDone(cfg, EMPTY_STORE, ops, sz).cache;
            && c.files == c.rows.Keys
            && (forall h :: h in c.files <==> h in c.small || h in c.main)
            && (forall h :: h in c.small ==> h !in c.main) && (forall h :: h in c.ghosts ==> h !in c.files)
            && c.smallBytes + c.mainBytes == StoredBytes(c, sz) && c.smallLen + c.mainLen == |c.files|
            && c.ghostLen == |c.ghosts|
  {
    hide AllAllowed, AllDone, StoredBytes, FailureFree, NoDup, Sum;
    EmptyKept();
    EmptyAccounted(sz);
    RunKeepsAccount(cfg, EMPTY_STORE, ops, sz);
    CountersAreStoredBytes(AllDone(cfg, EMPTY_STORE, ops, sz).cache, sz);
  }

  // ---- The steps do their work ----

  /** What a step without failures on the cache leaves behind. */
  lemma CacheStepOutcome(cfg: Config, s: Store, op: Op, sz: Hash -> nat)
    requires Accounted(s.cache, sz) && FailureFree(op) && OnlyCache(op)
    ensures var c, d := s.cache, Done(cfg, s, op, sz).cache;
            match op
            case PutContent(h, now, _) =>
              IsStored(Done(cfg, s, op, sz), h) && d.rows[h].lastAccess == now && d.rows[h].size == sz(h)
            case Access(h, now) => h in c.rows ==> h in d.rows && d.rows[h].lastAccess == now
            case DeleteUnreferenced(h, _) => h !in d.rows && h !in d.files && h !in d.small && h !in d.main
            case EvictOnce(_) =>
              c.smallBytes + c.mainBytes > cfg.maxSize && (exists h :: h in c.main && Free(c, h)) ==> d != c
            case Collect(before, limit, fails, _) =>
              !fails && limit <= 0 ==> Takeable(d.rows, before) == {}
            case Sweep(n, f) => d == c
            case Restart(_) => d == c
            case _ => true
  {
    hide Accounted, Put, Admit, MaybeEvict, CollectPhase, SweepOrphans, Recomputed, Unreferenced, Remove, Collectable;
    var c := s.cache;
    FilesAreRows(c, sz);
    SizesAreGiven(c, sz);
    match op
    case PutContent(h, now, f) => Outcomes.PutOutcome(c, h, sz(h), now, f);
    case Access(_, _) =>
    case DeleteUnreferenced(h, f) =>
      CollectedIsErased(c, h, f);
      ErasedLeavesNothing(c, h, sz);
    case EvictOnce(f) => EvictOutcome(cfg, c, f, sz);
    case Collect(before, limit, fails, plan) => if !fails && limit <= 0 { CollectOutcome(c, before, limit, plan); }
    case Sweep(n, f) => SweepKeeps(c, n, f, sz);
    case Restart(_) => RestartKeepsAccount(cfg, c, sz);
  }

  lemma SizesAreGiven(c: Cache, sz: Hash -> nat)
    requires Accounted(c, sz)
    ensures forall h :: h in c.rows ==> c.rows[h].size == sz(h)
  {
  }

  lemma ErasedLeavesNothing(c: Cache, h: Hash, sz: Hash -> nat)
    requires Accounted(c, sz)
    ensures var d := Erased(c, h); h !in d.rows && h !in d.files && h !in d.small && h !in d.main
  {
    ErasedAccounted(c, h, sz);
  }

  lemma EvictOutcome(cfg: Config, c: Cache, f: RunFaults, sz: Hash -> nat)
    requires Accounted(c, sz) && Quiet(f)
    ensures c.smallBytes + c.mainBytes > cfg.maxSize && (exists h :: h in c.main && Free(c, h)) ==>
              MaybeEvict(cfg, c, f).c != c
  {
    hide MaybeEvict, NoDup, Sum, NextEvent, After, Potential;
    if c.smallBytes + c.mainBytes > cfg.maxSize && exists h :: h in c.main && Free(c, h) {
      RunDoesNextEvent(cfg, c, sz, f);
      NotAtRest(cfg, c);
      ActingLowersPotential(cfg, c, sz);
    }
  }

  lemma NotAtRest(cfg: Config, c: Cache)
    requires c.smallBytes + c.mainBytes > cfg.maxSize && exists h :: h in c.main && Free(c, h)
    ensures NextEvent(cfg, c) != Rest
  {
    hide NextEvent;
    RestExactly(cfg, c);
    var h :| h in c.main && Free(c, h);
    assert !Pinned(c.rows, h);
  }

  lemma CollectOutcome(c: Cache, before: Option<Time>, limit: int, plan: DropPlan)
    requires limit <= 0 && forall h :: plan(h) == NO_DROP_FAULT
    ensures Takeable(CollectPhase(c, before, limit, false, plan).0.rows, before) == {}
  {
    hide CollectPhase, Unreferenced, Collectable;
    var d := CollectPhase(c, before, limit, false, plan).0;
    PhaseRows(c, before, limit, plan);
    forall h | h in Takeable(d.rows, before) ensures false {
      assert h in Takeable(c.rows, before);
      SelectedExactly(c.rows, before, limit, h);
    }
  }

  /** What a step on the envelopes leaves behind. */
  lemma EnvelopeStepOutcome(cfg: Config, s: Store, op: Op, sz: Hash -> nat)
    requires Kept(s)
    ensures var a, b := DbOf(s), DbOf(Done(cfg, s, op, sz));
            match op
            case PutEnv(p, e) => if ValidEnvelope(e) then PutDone(a, b, KeyOf(p), e) else b == a
            case UpdateEnv(p, u) =>
              (u.Delete? ==> DropDone(a, b, KeyOf(p)))
              && (u.Replace? && ValidEnvelope(u.envelope) ==> PutDone(a, b, KeyOf(p), u.envelope))
              && (u.Abort? || (u.Replace? && !ValidEnvelope(u.envelope)) ==> b == a)
            case DeleteEnv(p) => DropDone(a, b, KeyOf(p))
            case Reap(x) => if StillExpires(a, x) then DropDone(a, b, EntryKey(x)) else b == a
            case Rebuild => b == a
            case _ => true
  {
    hide Kept, PutEnvelopeTx, UpdateTx, Dropped, Rebuilt, PutDone, DropDone, ValidEnvelope, KeyOf, EntryKey,
      StillExpires, Put, MaybeEvict, CollectPhase, SweepOrphans, Recomputed, DeleteContent, Touched;
    match op
    case PutEnv(p, e) => PutOutcomeOf(s, KeyOf(p), e);
    case UpdateEnv(p, u) => UpdateOutcome(DbOf(s), KeyOf(p), u);
    case DeleteEnv(p) => DropOutcome(DbOf(s), KeyOf(p));
    case Reap(x) => DropOutcome(DbOf(s), EntryKey(x));
    case Rebuild => RebuildKeeps(s);
    case _ =>
  }

  lemma PutOutcomeOf(s: Store, k: Bytes, e: Envelope)
    ensures var d := PutEnvelopeTx(DbOf(s), k, e);
            if ValidEnvelope(e) then PutDone(DbOf(s), d, k, e) else d == DbOf(s)
  {
    hide PutEnvelopeTx, PutDone, ValidEnvelope;
    MetaState.PutOutcome(DbOf(s), k, e);
  }

  // ---- What happens when a selection and its deletion are not one step ----

  /** A deletion that finally happens keeps every named blob stored if and only if it fails before touching
      the file or the row's count is zero at that moment: the guard that eviction and collection check when
      they select but not again when they delete. */
  lemma LateDeletionExactly(s: Store, h: Hash, f: DropFaults, g: DeleteFaults)
    requires Kept(s) && h in s.cache.rows
    ensures Intact(s.(cache := CollectBlob(s.cache, h, f).0)) <==> f.get || f.backend || s.cache.rows[h].refCount == 0
    ensures Intact(s.(cache := DeleteContent(s.cache, h, f).0)) <==> f.backend || s.cache.rows[h].refCount == 0
    ensures Intact(s.(cache := DeleteFromBackend(s.cache, h, g).0)) <==> g.backend || s.cache.rows[h].refCount == 0
  {
    hide Valid, Exact, Remove, Intact, IsStored, CollectBlob, DeleteContent, DeleteFromBackend, Spares;
    DropTakesFile(s.cache, h, f, g);
    if Pinned(s.cache.rows, h) {
      PinnedIsNamed(s, h);
      NamedLosesFile(s, CollectBlob(s.cache, h, f).0, h);
      NamedLosesFile(s, DeleteContent(s.cache, h, f).0, h);
      NamedLosesFile(s, DeleteFromBackend(s.cache, h, g).0, h);
    } else {
      DropSpares(s.cache, h, f, g);
      SparingKeeps(s, CollectBlob(s.cache, h, f).0);
      SparingKeeps(s, DeleteContent(s.cache, h, f).0);
      SparingKeeps(s, DeleteFromBackend(s.cache, h, g).0);
    }
  }

  lemma NamedLosesFile(s: Store, c: Cache, h: Hash)
    requires exists k :: k in s.refs && h in s.refs[k]
    ensures h !in c.files ==> !Intact(s.(cache := c))
  {
    var k :| k in s.refs && h in s.refs[k];
    var t := s.(cache := c);
    assert k in t.refs && h in t.refs[k];
    assert h !in c.files ==> !IsStored(t, h);
  }

  lemma DropTakesFile(c: Cache, h: Hash, f: DropFaults, g: DeleteFaults)
    ensures if f.get || f.backend then CollectBlob(c, h, f).0 == c else h !in CollectBlob(c, h, f).0.files
    ensures if f.backend then DeleteContent(c, h, f).0 == c else h !in DeleteContent(c, h, f).0.files
    ensures if g.backend then DeleteFromBackend(c, h, g).0 == c else h !in DeleteFromBackend(c, h, g).0.files
  {
  }

  /** A collector's selection, then an envelope that names a selected blob, then the selected deletion: the
      envelope is left naming a blob without its file. */
  lemma LateCollectionDangles(cfg: Config, s: Store, before: Option<Time>, limit: int, p: KeyParts, e: Envelope,
                              h: Hash, f: DropFaults, sz: Hash -> nat)
    requires Kept(s) && h in Unreferenced(s.cache.rows, before, limit)
    requires ValidEnvelope(e) && NamesStored(s, e) && h in CanonicalRefs(e.blobRefs)
    requires !f.get && !f.backend
    ensures var t := Done(cfg, s, PutEnv(p, e), sz);
            Kept(t) && !Intact(t.(cache := CollectBlob(t.cache, h, f).0))
  {
    hide Kept, Unreferenced, CollectBlob, DeleteContent, DeleteFromBackend, Intact;
    StepKeeps(cfg, s, PutEnv(p, e), sz);
    NamingPins(cfg, s, p, e, h, sz);
    LateDeletionExactly(Done(cfg, s, PutEnv(p, e), sz), h, f, DeleteFaults(true, true));
  }

  /** The same with a candidate that the evictor popped and deletes outside the lock. */
  lemma LateEvictionDangles(cfg: Config, s: Store, queue: QueueName, p: KeyParts, e: Envelope, g: DeleteFaults,
                            sz: Hash -> nat)
    requires Kept(s) && EvictFrom(s.cache, queue, NO_FAULT).d.Evicting?
    requires var o := EvictFrom(s.cache, queue, NO_FAULT);
             ValidEnvelope(e) && NamesStored(s, e) && o.d.pending.hash in CanonicalRefs(e.blobRefs)
    requires !g.backend
    ensures var o := EvictFrom(s.cache, queue, NO_FAULT);
            var t := Done(cfg, s.(cache := o.c), PutEnv(p, e), sz);
            Kept(t) && !Intact(t.(cache := DeleteFromBackend(t.cache, o.d.pending.hash, g).0))
  {
    hide Kept, EvictFrom, CollectBlob, DeleteContent, DeleteFromBackend, Intact, CanonicalRefs, Spares;
    var o := EvictFrom(s.cache, queue, NO_FAULT);
    var s' := s.(cache := o.c);
    EvictSelects(s.cache, queue, NO_FAULT);
    SparingKeeps(s, o.c);
    EvictKeepsStored(s, queue);
    StepKeeps(cfg, s', PutEnv(p, e), sz);
    NamingPins(cfg, s', p, e, o.d.pending.hash, sz);
    LateDeletionExactly(Done(cfg, s', PutEnv(p, e), sz), o.d.pending.hash, NO_DROP_FAULT, g);
  }

  lemma EvictKeepsStored(s: Store, queue: QueueName)
    ensures var o := EvictFrom(s.cache, queue, NO_FAULT);
            forall h :: IsStored(s, h) ==> IsStored(s.(cache := o.c), h)
  {
    hide Push;
  }

  lemma NamingPins(cfg: Config, s: Store, p: KeyParts, e: Envelope, h: Hash, sz: Hash -> nat)
    requires Kept(Done(cfg, s, PutEnv(p, e), sz)) && ValidEnvelope(e) && h in CanonicalRefs(e.blobRefs)
    ensures var t := Done(cfg, s, PutEnv(p, e), sz); Pinned(t.cache.rows, h)
  {
    hide Valid, Increased, Decreased, Reindexed, CanonicalRefs, ValidEnvelope, EnvelopeKey;
    var t := Done(cfg, s, PutEnv(p, e), sz);
    assert KeyOf(p) in t.refs && h in t.refs[KeyOf(p)];
    assert IsStored(t, h);
    PinnedIsNamed(t, h);
  }

  /** Storing an envelope keeps every named blob stored if and only if all of its own references are. */
  lemma StoredIntact(s: Store, k: Bytes, e: Envelope)
    requires Intact(s)
    ensures Intact(WithDb(s, Stored(DbOf(s), k, e))) <==> forall h :: h in e.blobRefs ==> IsStored(s, h)
  {
    hide Increased, Decreased, Reindexed;
    var d := Stored(DbOf(s), k, e);
    var t := WithDb(s, d);
    StoredCounts(DbOf(s), k, e);
    if Intact(t) {
      forall h | h in e.blobRefs ensures IsStored(s, h) {
        assert k in t.refs && h in t.refs[k];
        assert IsStored(t, h);
        assert h in d.blobs.Keys;
      }
    } else {
      var j, h :| j in t.refs && h in t.refs[j] && !IsStored(t, h);
      assert h in s.cache.rows ==> h in d.blobs.Keys;
      assert j != k ==> j in s.refs && h in s.refs[j] && IsStored(s, h);
    }
  }

  /** What happens when a caller stores a reference before the blob: once the blob is put its count is zero
      although an envelope names it, so the collector selects it. */
  lemma EarlyReferenceIsCollectable(db: DB, k: Bytes, e: Envelope, h: Hash, size: nat, now: Time)
    requires h in e.blobRefs && h !in db.blobs
    ensures var d := Stored(db, k, e);
            var put := d.(blobs := d.blobs[h := BlobEntry(size, now, now, 0, 0)]);
            k in Referrers(put.refs, h) && h in Unreferenced(put.blobs, None, 0) && !Exact(put)
  {
    hide Increased, Decreased, Reindexed, Unreferenced;
    var d := Stored(db, k, e);
    var put := d.(blobs := d.blobs[h := BlobEntry(size, now, now, 0, 0)]);
    assert k in put.refs && h in put.refs[k];
    SomeReferrer(put.refs, k, h);
    UnreferencedMembers(put.blobs, None, 0);
  }

  // ---- A short run into an overrun ----

  /** A first admission without a ghost entry. */
  lemma PutFresh(c: Cache, h: Hash, size: nat)
    requires h !in c.files && h !in c.small && c.ghosts == []
    ensures Put(c, h, size, 0, NO_PUT_FAULT).0
         == c.(small := c.small + [h], smallBytes := c.smallBytes + size, smallLen := c.smallLen + 1,
               rows := c.rows[h := BlobEntry(size, 0, 0, 0, 0)], files := c.files + {h})
  {
    PushMembers(c.small, h);
  }

  ghost function SmallOnly(small: seq<Hash>, bytes: nat, rows: Rows, files: set<Hash>): Store {
    EMPTY_STORE.(cache := Cache(small, [], [], bytes, 0, |small|, 0, 0, rows, files))
  }

  /** Storing `b`, reading it and storing `a` leaves `b` before `a` in small, with one access counted. */
  lemma TwoStored(cfg: Config, a: Hash, b: Hash, sz: Hash -> nat)
    requires a != b
    ensures var rows := map[b := BlobEntry(sz(b), 0, 0, 0, 1), a := BlobEntry(sz(a), 0, 0, 0, 0)];
            var s1 := Done(cfg, EMPTY_STORE, PutContent(b, 0, NO_PUT_FAULT), sz);
            var s2 := Done(cfg, s1, Access(b, 0), sz);
            Done(cfg, s2, PutContent(a, 0, NO_PUT_FAULT), sz) == SmallOnly([b, a], sz(b) + sz(a), rows, {a, b})
  {
    hide Put;
    PutFresh(EMPTY_STORE.cache, b, sz(b));
    assert [] + [b] == [b] && [b] + [a] == [b, a];
    var s1 := Done(cfg, EMPTY_STORE, PutContent(b, 0, NO_PUT_FAULT), sz);
    assert s1 == SmallOnly([b], sz(b), map[b := BlobEntry(sz(b), 0, 0, 0, 0)], {b});
    var s2 := Done(cfg, s1, Access(b, 0), sz);
    var rows := map[b := BlobEntry(sz(b), 0, 0, 0, 1)];
    assert Touched(s1.cache.rows, b, 0) == rows;
    assert s2 == SmallOnly([b], sz(b), rows, {b});
    PutFresh(s2.cache, a, sz(a));
    assert rows[a := BlobEntry(sz(a), 0, 0, 0, 0)]
        == map[b := BlobEntry(sz(b), 0, 0, 0, 1), a := BlobEntry(sz(a), 0, 0, 0, 0)];
    assert {b} + {a} == {a, b};
  }

  /** The next run promotes `b`. */
  lemma ThenPromoted(cfg: Config, a: Hash, b: Hash, f: RunFaults, sz: Hash -> nat)
    requires a != b && Quiet(f) && sz(a) + sz(b) > cfg.maxSize && sz(a) + sz(b) > SmallTarget(cfg)
    ensures var rows := map[b := BlobEntry(sz(b), 0, 0, 0, 1), a := BlobEntry(sz(a), 0, 0, 0, 0)];
            MaybeEvict(cfg, SmallOnly([b, a], sz(b) + sz(a), rows, {a, b}).cache, f).c
            == Cache([a], [b], [], sz(a), sz(b), 1, 1, 0, rows, {a, b})
  {
    hide MaybeEvict;
    var rows := map[b := BlobEntry(sz(b), 0, 0, 0, 1), a := BlobEntry(sz(a), 0, 0, 0, 0)];
    var c := SmallOnly([b, a], sz(b) + sz(a), rows, {a, b}).cache;
    SumPush([], b, sz);
    SumPush([b], a, sz);
    assert [] + [b] == [b] && [b] + [a] == [b, a];
    RunDoesNextEvent(cfg, c, sz, f);
    assert c.small[0] == b && FirstFree(c.rows, c.small) == 0;
    assert Taken(c.small, 0) == [a];
  }

  /** An envelope that names `b` pins it. */
  lemma ThenNamed(s: Store, p: KeyParts, b: Hash)
    requires b in s.cache.rows && s.refs == map[] && ValidDigest(b) && Lower(b) == b
    ensures var e := Envelope(0, 0, [b], 0, []);
            WithDb(s, PutEnvelopeTx(DbOf(s), KeyOf(p), e)).cache
            == s.cache.(rows := s.cache.rows[b := s.cache.rows[b].(refCount := s.cache.rows[b].refCount + 1)])
    ensures CanonicalRefs([b]) == [b]
  {
    hide KeyOf, Reindexed, CanonicalRefs, Ascending;
    CanonicalMembers([b]);
    OnlyMember(CanonicalRefs([b]), b);
    assert Minus([b], []) == [b] && Minus([], [b]) == [];
  }

  lemma OnlyMember(q: seq<Hash>, h: Hash)
    requires NoDup(q) && forall g :: g in q <==> g == h
    ensures q == [h]
  {
    SizeOfMembers(q, {h});
    assert q[0] in q;
  }

  /** The evictor can stay over the limit although an unpinned blob is stored. From the empty store with a
      limit of a hundred bytes: store a blob of a hundred, read it, store one of five, evict once and let an
      envelope name the first. Main is then all pinned, and small is under its target of ten. */
  lemma OverrunWithUnpinnedBlob(a: Hash, b: Hash, p: KeyParts, f: RunFaults, sz: Hash -> nat)
    requires a != b && ValidDigest(b) && Lower(b) == b && sz(a) == 5 && sz(b) == 100 && Quiet(f)
    ensures var cfg := Config(100, 10, 0);
            var ops := [PutContent(b, 0, NO_PUT_FAULT), Access(b, 0), PutContent(a, 0, NO_PUT_FAULT), EvictOnce(f),
                        PutEnv(p, Envelope(0, 0, [b], 0, []))];
            var c := AllDone(cfg, EMPTY_STORE, ops, sz).cache;
            && Normal(cfg) && AllAllowed(cfg, EMPTY_STORE, ops, sz) && (forall op :: op in ops ==> FailureFree(op))
            && a in c.small && !Pinned(c.rows, a) && Over(cfg, c) && NextEvent(cfg, c) == Rest
  {
    hide Put, Touched, MaybeEvict, NextEvent, PutEnvelopeTx, ValidDigest, Lower, KeyOf, AllPinned;
    var cfg := Config(100, 10, 0);
    var e := Envelope(0, 0, [b], 0, []);
    var ops := [PutContent(b, 0, NO_PUT_FAULT), Access(b, 0), PutContent(a, 0, NO_PUT_FAULT), EvictOnce(f),
                PutEnv(p, e)];
    var s3 := SmallOnly([b, a], 105, map[b := BlobEntry(100, 0, 0, 0, 1), a := BlobEntry(5, 0, 0, 0, 0)], {a, b});
    TwoStored(cfg, a, b, sz);
    ThenPromoted(cfg, a, b, f, sz);
    var s4 := Done(cfg, s3, EvictOnce(f), sz);
    ThenNamed(s4, p, b);
    var s5 := Done(cfg, s4, PutEnv(p, e), sz);
    FiveSteps(cfg, EMPTY_STORE, ops, sz);
    MainPinned(s5.cache, b);
    RestExactly(cfg, s5.cache);
  }

  lemma MainPinned(c: Cache, b: Hash)
    requires c.main == [b] && Pinned(c.rows, b)
    ensures AllPinned(c.rows, c.main)
  {
  }

  lemma FiveSteps(cfg: Config, s: Store, ops: seq<Op>, sz: Hash -> nat)
    requires |ops| == 5
    ensures var s1 := Done(cfg, s, ops[0], sz);
            var s2 := Done(cfg, s1, ops[1], sz);
            var s3 := Done(cfg, s2, ops[2], sz);
            var s4 := Done(cfg, s3, ops[3], sz);
            && AllDone(cfg, s, ops, sz) == Done(cfg, s4, ops[4], sz)
            && (AllAllowed(cfg, s, ops, sz) <==>
                  Allowed(s, ops[0]) && Allowed(s1, ops[1]) && Allowed(s2, ops[2]) && Allowed(s3, ops[3])
                  && Allowed(s4, ops[4]))
  {
    hide Done, Allowed;
    var s1 := Done(cfg, s, ops[0], sz);
    var s2 := Done(cfg, s1, ops[1], sz);
    var s3 := Done(cfg, s2, ops[2], sz);
    OneStep(cfg, s, ops, sz);
    OneStep(cfg, s1, ops[1..], sz);
    OneStep(cfg, s2, ops[1..][1..], sz);
    OneStep(cfg, s3, ops[1..][1..][1..], sz);
    OneStep(cfg, Done(cfg, s3, ops[3], sz), ops[1..][1..][1..][1..], sz);
    NoStep(cfg, Done(cfg, Done(cfg, s3, ops[3], sz), ops[4], sz), sz);
    assert ops[1..][1..][1..][1..][1..] == [];
  }

  lemma OneStep(cfg: Config, s: Store, ops: seq<Op>, sz: Hash -> nat)
    requires ops != []
    ensures AllDone(cfg, s, ops, sz) == AllDone(cfg, Done(cfg, s, ops[0], sz), ops[1..], sz)
    ensures AllAllowed(cfg, s, ops, sz)
        <==> Allowed(s, ops[0]) && AllAllowed(cfg, Done(cfg, s, ops[0], sz), ops[1..], sz)
  {
  }

  lemma NoStep(cfg: Config, s: Store, sz: Hash -> nat)
    ensures AllDone(cfg, s, [], sz) == s && AllAllowed(cfg, s, [], sz)
  {
  }
}
