/** The state of the metadata database and its envelope transactions, with the laws they keep:
    reference counts, the references bucket and the two-way expiry index. */
module MetaState {
  import opened ByteStrings
  import opened Buckets
  import opened Fifo
  import opened Blobs
  import opened Envelopes

  /** Forward entries are an encoded time followed by a compound key, mapped to that key; the reverse
      bucket maps a compound key to its encoded time. */
  datatype Index = Index(byExpiry: map<Bytes, Bytes>, expiryByKey: map<Bytes, Bytes>)

  datatype DB = DB(envelopes: map<Bytes, Envelope>, refs: map<Bytes, seq<Hash>>, index: Index, blobs: Rows)

  // ---- The expiry index ----

  function Unindexed(ix: Index, k: Bytes): Index {
    if k in ix.expiryByKey then Index(ix.byExpiry - {ix.expiryByKey[k] + k}, ix.expiryByKey - {k}) else ix
  }

  function Reindexed(ix: Index, k: Bytes, expiresAtUnixMs: int): Index {
    var u := Unindexed(ix, k);
    if expiresAtUnixMs > 0 then
      var ts := EncodeTimestamp(UnixMilli(expiresAtUnixMs));
      Index(u.byExpiry[ts + k := k], u.expiryByKey[k := ts])
    else u
  }

  /** The forward bucket is exactly the inverse image of the reverse bucket. */
  ghost predicate Coherent(ix: Index) {
    && (forall k :: k in ix.expiryByKey ==> |ix.expiryByKey[k]| == 8)
    && (forall k :: k in ix.expiryByKey ==>
          ix.expiryByKey[k] + k in ix.byExpiry && ix.byExpiry[ix.expiryByKey[k] + k] == k)
    && (forall f :: f in ix.byExpiry ==>
          ix.byExpiry[f] in ix.expiryByKey && f == ix.expiryByKey[ix.byExpiry[f]] + ix.byExpiry[f])
  }

  /** Forward keys of different compound keys differ, since encoded times have one width. */
  lemma ForwardDistinct(s: Bytes, t: Bytes, j: Bytes, k: Bytes)
    requires |s| == |t| && j != k
    ensures s + j != t + k
  {
    assert (s + j)[|s|..] == j && (t + k)[|t|..] == k;
  }

  lemma UnindexedCoherent(ix: Index, k: Bytes)
    requires Coherent(ix)
    ensures Coherent(Unindexed(ix, k))
    ensures Unindexed(ix, k).expiryByKey == ix.expiryByKey - {k}
  {
    if k in ix.expiryByKey {
      var u := Unindexed(ix, k);
      forall j | j in u.expiryByKey
        ensures u.expiryByKey[j] + j in u.byExpiry && u.byExpiry[u.expiryByKey[j] + j] == j
      {
        ForwardDistinct(ix.expiryByKey[j], ix.expiryByKey[k], j, k);
      }
    } else {
      assert ix.expiryByKey - {k} == ix.expiryByKey;
    }
  }

  lemma IndexedCoherent(ix: Index, k: Bytes, ts: Bytes)
    requires Coherent(ix) && k !in ix.expiryByKey && |ts| == 8
    ensures Coherent(Index(ix.byExpiry[ts + k := k], ix.expiryByKey[k := ts]))
  {
    var u := Index(ix.byExpiry[ts + k := k], ix.expiryByKey[k := ts]);
    forall j | j in u.expiryByKey
      ensures u.expiryByKey[j] + j in u.byExpiry && u.byExpiry[u.expiryByKey[j] + j] == j
    {
      if j != k { ForwardDistinct(ix.expiryByKey[j], ts, j, k); }
    }
  }

  /** Re-indexing keeps the two buckets inverse and records exactly a positive expiry. */
  lemma ReindexedCoherent(ix: Index, k: Bytes, ms: int)
    requires Coherent(ix)
    ensures Coherent(Reindexed(ix, k, ms))
    ensures Reindexed(ix, k, ms).expiryByKey
         == if ms > 0 then ix.expiryByKey[k := EncodeTimestamp(UnixMilli(ms))] else ix.expiryByKey - {k}
  {
    UnindexedCoherent(ix, k);
    if ms > 0 {
      IndexedCoherent(Unindexed(ix, k), k, EncodeTimestamp(UnixMilli(ms)));
      assert (ix.expiryByKey - {k})[k := EncodeTimestamp(UnixMilli(ms))]
          == ix.expiryByKey[k := EncodeTimestamp(UnixMilli(ms))];
    }
  }

  /** The old forward key is rebuilt from the decoded old time, and is the same bytes. */
  lemma RebuiltForwardKey(ts: Bytes, protocol: Bytes, kind: Bytes, key: Bytes)
    requires |ts| == 8
    ensures EnvelopeExpiryKey(DecodeTimestamp(ts), protocol, kind, key) == ts + EnvelopeKey(protocol, kind, key)
  {
    EncodeDecode(ts);
  }

  // ---- Transactions ----

  function RefsOf(db: DB, k: Bytes): seq<Hash> { if k in db.refs then db.refs[k] else [] }

  /** Storing a validated, canonical envelope. */
  function Stored(db: DB, k: Bytes, e: Envelope): DB {
    var prior := RefsOf(db, k);
    DB(db.envelopes[k := e], db.refs[k := e.blobRefs], Reindexed(db.index, k, e.expiresAtUnixMs),
       Decreased(Increased(db.blobs, Minus(e.blobRefs, prior)), Minus(prior, e.blobRefs)))
  }

  /** Deleting an envelope with everything that belongs to it. */
  function Dropped(db: DB, k: Bytes): DB {
    DB(db.envelopes - {k}, db.refs - {k}, Unindexed(db.index, k), Decreased(db.blobs, RefsOf(db, k)))
  }

  function Canonical(e: Envelope): Envelope { e.(blobRefs := CanonicalRefs(e.blobRefs)) }

  /** `PutEnvelope`: an invalid envelope is refused. */
  function PutEnvelopeTx(db: DB, k: Bytes, e: Envelope): DB {
    if ValidEnvelope(e) then Stored(db, k, Canonical(e)) else db
  }

  datatype Update = Abort | Delete | Replace(envelope: Envelope)

  /** `UpdateEnvelope`, given the callback's answer. */
  function UpdateTx(db: DB, k: Bytes, u: Update): DB {
    match u
    case Abort => db
    case Delete => Dropped(db, k)
    case Replace(e) => PutEnvelopeTx(db, k, e)
  }

  // ---- What a transaction comes to ----

  /** An envelope is kept as it was given, with canonical references. */
  ghost predicate Keeps(stored: Envelope, given: Envelope) {
    && stored.expiresAtUnixMs == given.expiresAtUnixMs && stored.body == given.body
    && stored.attributeKeys == given.attributeKeys && stored.attributeBytes == given.attributeBytes
    && NoDup(stored.blobRefs) && Ascending(stored.blobRefs)
    && forall h :: h in stored.blobRefs <==> exists r :: r in given.blobRefs && IsLowerCaseOf(h, r)
  }

  /** Everything stored under other keys is as before. */
  ghost predicate OthersKept(before: DB, after: DB, k: Bytes) {
    forall j :: j != k ==>
      && (j in after.envelopes <==> j in before.envelopes)
      && (j in after.envelopes && j in before.envelopes ==> after.envelopes[j] == before.envelopes[j])
      && (j in after.refs <==> j in before.refs)
      && (j in after.refs && j in before.refs ==> after.refs[j] == before.refs[j])
      && (j in after.index.expiryByKey <==> j in before.index.expiryByKey)
      && (j in after.index.expiryByKey && j in before.index.expiryByKey ==>
            after.index.expiryByKey[j] == before.index.expiryByKey[j])
  }

  predicate Names(refs: map<Bytes, seq<Hash>>, k: Bytes, h: Hash) { k in refs && h in refs[k] }

  /** Rows change in their count alone: up by one where the key begins to name the blob, down by one, but not
      below zero, where it ceases to. */
  ghost predicate CountsFollow(before: DB, after: DB, k: Bytes) {
    && (forall h :: h in after.blobs <==> h in before.blobs)
    && forall h :: h in before.blobs && h in after.blobs ==>
         var named, names := Names(before.refs, k, h), Names(after.refs, k, h);
         var a, b := before.blobs[h], after.blobs[h];
         && b.size == a.size && b.cachedAt == a.cachedAt && b.lastAccess == a.lastAccess
         && b.accessCount == a.accessCount
         && b.refCount == (if names && !named then a.refCount + 1
                           else if named && !names && a.refCount > 0 then a.refCount - 1
                           else a.refCount)
  }

  ghost predicate PutDone(before: DB, after: DB, k: Bytes, given: Envelope) {
    && k in after.envelopes && Keeps(after.envelopes[k], given)
    && k in after.refs && after.refs[k] == after.envelopes[k].blobRefs
    && OthersKept(before, after, k) && CountsFollow(before, after, k)
  }

  ghost predicate DropDone(before: DB, after: DB, k: Bytes) {
    && k !in after.envelopes && k !in after.refs && k !in after.index.expiryByKey
    && OthersKept(before, after, k) && CountsFollow(before, after, k)
  }

  lemma StoredRows(db: DB, k: Bytes, e: Envelope)
    ensures CountsFollow(db, Stored(db, k, e), k)
  {
    hide Reindexed;
    MinusMembers(e.blobRefs, RefsOf(db, k));
    MinusMembers(RefsOf(db, k), e.blobRefs);
  }

  lemma ReindexedOthers(ix: Index, k: Bytes, ms: int)
    ensures forall j :: j != k ==>
              (j in Reindexed(ix, k, ms).expiryByKey <==> j in ix.expiryByKey)
              && (j in ix.expiryByKey ==> Reindexed(ix, k, ms).expiryByKey[j] == ix.expiryByKey[j])
    ensures ms <= 0 ==> k !in Reindexed(ix, k, ms).expiryByKey
    ensures Unindexed(ix, k) == Reindexed(ix, k, 0)
  {
  }

  /** A put stores the envelope as given and adjusts counts, or refuses it and changes nothing. */
  lemma PutOutcome(db: DB, k: Bytes, e: Envelope)
    ensures var d := PutEnvelopeTx(db, k, e);
            if ValidEnvelope(e) then PutDone(db, d, k, e) else d == db
  {
    hide Reindexed, CountsFollow, ValidEnvelope, CanonicalRefs, Increased, Decreased, Minus, NoDup, Ascending,
      IsLowerCaseOf;
    var c := Canonical(e);
    StoredRows(db, k, c);
    ReindexedOthers(db.index, k, c.expiresAtUnixMs);
    CanonicalMembers(e.blobRefs);
    forall h ensures h in c.blobRefs <==> exists r :: r in e.blobRefs && IsLowerCaseOf(h, r) {
      forall r ensures h == Lower(r) <==> IsLowerCaseOf(h, r) { LowerIsLowerCase(h, r); }
    }
  }

  /** A delete leaves nothing under the key. */
  lemma DropOutcome(db: DB, k: Bytes)
    ensures DropDone(db, Dropped(db, k), k)
  {
    hide Reindexed, Unindexed;
    ReindexedOthers(db.index, k, 0);
  }

  /** An update does what its answer says. */
  lemma UpdateOutcome(db: DB, k: Bytes, u: Update)
    ensures var d := UpdateTx(db, k, u);
            match u
            case Abort => d == db
            case Delete => DropDone(db, d, k)
            case Replace(e) => if ValidEnvelope(e) then PutDone(db, d, k, e) else d == db
  {
    hide PutEnvelopeTx, Dropped, PutDone, DropDone, ValidEnvelope;
    match u
    case Abort =>
    case Delete => DropOutcome(db, k);
    case Replace(e) => PutOutcome(db, k, e);
  }

  datatype ExpiryEntry = ExpiryEntry(parts: KeyParts, expiresAt: Time)

  function EntryKey(x: ExpiryEntry): Bytes { EnvelopeKey(x.parts.protocol, x.parts.kind, x.parts.key) }

  /** The reverse index still holds the time the reaper saw. */
  predicate StillExpires(db: DB, x: ExpiryEntry) {
    EntryKey(x) in db.index.expiryByKey && db.index.expiryByKey[EntryKey(x)] == EncodeTimestamp(x.expiresAt)
  }

  function ReapTx(db: DB, x: ExpiryEntry): DB {
    if StillExpires(db, x) then Dropped(db, EntryKey(x)) else db
  }

  // ---- What every transaction keeps ----

  /** The references bucket mirrors the stored envelopes, without duplicates; the index is coherent and
      holds exactly the keys whose envelope has a positive expiry, at that expiry; keys are compound. */
  ghost predicate Valid(db: DB) {
    && Mirrored(db.envelopes, db.refs)
    && Coherent(db.index)
    && IndexMatches(db.envelopes, db.index.expiryByKey)
  }

  ghost predicate Mirrored(envelopes: map<Bytes, Envelope>, refs: map<Bytes, seq<Hash>>) {
    && refs.Keys == envelopes.Keys
    && forall k :: k in envelopes ==> HasTwoNuls(k) && refs[k] == envelopes[k].blobRefs && NoDup(refs[k])
  }

  ghost predicate IndexMatches(envelopes: map<Bytes, Envelope>, expiryByKey: map<Bytes, Bytes>) {
    && (forall k :: k in expiryByKey ==> k in envelopes)
    && (forall k :: k in envelopes ==> (k in expiryByKey <==> envelopes[k].expiresAtUnixMs > 0))
    && (forall k :: k in expiryByKey ==> expiryByKey[k] == EncodeTimestamp(UnixMilli(envelopes[k].expiresAtUnixMs)))
  }

  lemma StoredValid(db: DB, k: Bytes, e: Envelope)
    requires Valid(db) && HasTwoNuls(k) && NoDup(e.blobRefs)
    ensures Valid(Stored(db, k, e))
  {
    hide Reindexed, Increased, Decreased, HasTwoNuls, NoDup, Coherent, IndexMatches;
    ReindexedCoherent(db.index, k, e.expiresAtUnixMs);
    MatchesStored(db.envelopes, db.index.expiryByKey, k, e);
  }

  lemma MatchesStored(envelopes: map<Bytes, Envelope>, m: map<Bytes, Bytes>, k: Bytes, e: Envelope)
    requires IndexMatches(envelopes, m)
    ensures IndexMatches(envelopes[k := e],
              if e.expiresAtUnixMs > 0 then m[k := EncodeTimestamp(UnixMilli(e.expiresAtUnixMs))] else m - {k})
  {
    hide EncodeTimestamp, UnixMilli;
  }

  lemma DroppedValid(db: DB, k: Bytes)
    requires Valid(db)
    ensures Valid(Dropped(db, k))
  {
    hide Unindexed, Decreased, HasTwoNuls, NoDup, Coherent;
    UnindexedCoherent(db.index, k);
  }

  lemma PutEnvelopeValid(db: DB, k: Bytes, e: Envelope)
    requires Valid(db) && HasTwoNuls(k)
    ensures Valid(PutEnvelopeTx(db, k, e))
  {
    hide Valid, Stored;
    CanonicalMembers(e.blobRefs);
    if ValidEnvelope(e) { StoredValid(db, k, Canonical(e)); }
  }

  lemma UpdateValid(db: DB, k: Bytes, u: Update)
    requires Valid(db) && HasTwoNuls(k)
    ensures Valid(UpdateTx(db, k, u))
  {
    hide Valid, PutEnvelopeTx, Dropped;
    match u
    case Abort =>
    case Delete => DroppedValid(db, k);
    case Replace(e) => PutEnvelopeValid(db, k, e);
  }

  lemma ReapValid(db: DB, x: ExpiryEntry)
    requires Valid(db)
    ensures Valid(ReapTx(db, x))
  {
    hide Valid, Dropped;
    DroppedValid(db, EntryKey(x));
  }

  // ---- Reference counts ----

  /** The envelopes that name a hash. */
  function Referrers(refs: map<Bytes, seq<Hash>>, h: Hash): set<Bytes> {
    set k | k in refs && h in refs[k]
  }

  /** No count exceeds the number of envelopes that name the hash. */
  ghost predicate NotOvercounted(db: DB) {
    forall h :: h in db.blobs ==> db.blobs[h].refCount <= |Referrers(db.refs, h)|
  }

  ghost predicate Exact(db: DB) {
    forall h :: h in db.blobs ==> db.blobs[h].refCount == |Referrers(db.refs, h)|
  }

  /** Every named hash has a row. */
  ghost predicate Backed(db: DB) {
    forall k, h :: k in db.refs && h in db.refs[k] ==> h in db.blobs
  }

  lemma ReferrersWithout(refs: map<Bytes, seq<Hash>>, k: Bytes, h: Hash)
    ensures |Referrers(refs, h)| == |Referrers(refs - {k}, h)| + (if k in refs && h in refs[k] then 1 else 0)
  {
    var a, b := Referrers(refs, h), Referrers(refs - {k}, h);
    if k in refs && h in refs[k] {
      assert a == b + {k};
    } else {
      assert a == b;
    }
  }

  lemma ReferrersAfterStore(refs: map<Bytes, seq<Hash>>, k: Bytes, next: seq<Hash>, h: Hash)
    ensures var prior := if k in refs then refs[k] else [];
            |Referrers(refs[k := next], h)|
            == |Referrers(refs, h)| - (if h in prior then 1 else 0) + (if h in next then 1 else 0)
  {
    hide Referrers;
    ReferrersWithout(refs, k, h);
    ReferrersWithout(refs[k := next], k, h);
    assert refs[k := next] - {k} == refs - {k};
  }

  lemma SomeReferrer(refs: map<Bytes, seq<Hash>>, k: Bytes, h: Hash)
    ensures k in refs && h in refs[k] ==> |Referrers(refs, h)| > 0
  {
    if k in refs && h in refs[k] { assert k in Referrers(refs, h); }
  }

  /** Storing an envelope moves each count with the number of envelopes, except that a count at zero
      does not fall further. */
  lemma StoredCounts(db: DB, k: Bytes, e: Envelope)
    ensures NotOvercounted(db) ==> NotOvercounted(Stored(db, k, e))
    ensures Exact(db) ==> Exact(Stored(db, k, e))
    ensures Stored(db, k, e).blobs.Keys == db.blobs.Keys
  {
    hide Reindexed, Referrers;
    var prior := RefsOf(db, k);
    var d := Stored(db, k, e);
    MinusMembers(e.blobRefs, prior);
    MinusMembers(prior, e.blobRefs);
    forall h | h in db.blobs
      ensures db.blobs[h].refCount <= |Referrers(db.refs, h)| ==> d.blobs[h].refCount <= |Referrers(d.refs, h)|
      ensures db.blobs[h].refCount == |Referrers(db.refs, h)| ==> d.blobs[h].refCount == |Referrers(d.refs, h)|
    {
      ReferrersAfterStore(db.refs, k, e.blobRefs, h);
      SomeReferrer(db.refs, k, h);
    }
  }

  lemma DroppedCounts(db: DB, k: Bytes)
    ensures NotOvercounted(db) ==> NotOvercounted(Dropped(db, k))
    ensures Exact(db) ==> Exact(Dropped(db, k))
    ensures Dropped(db, k).blobs.Keys == db.blobs.Keys
  {
    hide Unindexed, Referrers;
    var d := Dropped(db, k);
    forall h | h in db.blobs
      ensures db.blobs[h].refCount <= |Referrers(db.refs, h)| ==> d.blobs[h].refCount <= |Referrers(d.refs, h)|
      ensures db.blobs[h].refCount == |Referrers(db.refs, h)| ==> d.blobs[h].refCount == |Referrers(d.refs, h)|
    {
      ReferrersWithout(db.refs, k, h);
      SomeReferrer(db.refs, k, h);
    }
  }

  /** Refcount conservation over every envelope transaction: counts never exceed the number of naming
      envelopes, and exact counts stay exact. */
  lemma UpdateCounts(db: DB, k: Bytes, u: Update)
    ensures NotOvercounted(db) ==> NotOvercounted(UpdateTx(db, k, u))
    ensures Exact(db) ==> Exact(UpdateTx(db, k, u))
  {
    hide Stored, Dropped, NotOvercounted, Exact;
    match u
    case Abort =>
    case Delete => DroppedCounts(db, k);
    case Replace(e) => if ValidEnvelope(e) { StoredCounts(db, k, Canonical(e)); }
  }

  lemma ReapCounts(db: DB, x: ExpiryEntry)
    ensures NotOvercounted(db) ==> NotOvercounted(ReapTx(db, x))
    ensures Exact(db) ==> Exact(ReapTx(db, x))
  {
    hide Dropped, NotOvercounted, Exact;
    DroppedCounts(db, EntryKey(x));
  }

  /** Writing a blob row with count zero never over-counts, and keeps counts exact if and only if no
      envelope names the hash at that moment. */
  lemma NewRowCounts(db: DB, h: Hash, e: BlobEntry)
    requires e.refCount == 0
    ensures NotOvercounted(db) ==> NotOvercounted(db.(blobs := db.blobs[h := e]))
    ensures Exact(db) ==> (Exact(db.(blobs := db.blobs[h := e])) <==> Referrers(db.refs, h) == {})
  {
    var d := db.(blobs := db.blobs[h := e]);
    if Exact(db) && Referrers(db.refs, h) == {} {
      forall g | g in d.blobs ensures d.blobs[g].refCount == |Referrers(d.refs, g)| {}
    }
    if Exact(d) {
      assert h in d.blobs && d.blobs[h].refCount == |Referrers(d.refs, h)|;
    }
  }
}
