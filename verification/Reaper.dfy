/** The envelope reaper: select expired envelopes in one transaction, delete each conditionally in
    another, and repeat until drained. */
module Reaper {
  import opened ByteStrings
  import opened Buckets
  import opened Fifo
  import opened Blobs
  import opened Envelopes
  import opened MetaState
  import opened MetaDB
  import opened MetaRuns

  /** The nanosecond count of an envelope's expiry. */
  function ExpiryNanos(e: Envelope): int { UnixNano(UnixMilli(e.expiresAtUnixMs)) }

  function ExpiryOf(db: DB, k: Bytes): int {
    if k in db.envelopes then ExpiryNanos(db.envelopes[k]) else 0
  }

  predicate Expired(e: Envelope, before: Time) {
    e.expiresAtUnixMs > 0 && ExpiryNanos(e) < UnixNano(before)
  }

  function ExpiredSet(db: DB, before: Time): set<Bytes> {
    set k | k in db.envelopes && Expired(db.envelopes[k], before)
  }

  // ---- Expired in the index, and expired in time ----

  /** The last millisecond whose nanoseconds fit in 64 bits, in the year 2262. */
  const MAX_EXPIRY_MS: int := 9223372036854

  predicate Representable(t: Time) { -TWO_TO_63 <= t < TWO_TO_63 }

  /** The expiry, taken at its true value, is before the cutoff. */
  predicate Due(e: Envelope, before: Time) { e.expiresAtUnixMs > 0 && UnixMilli(e.expiresAtUnixMs) < before }

  function DueSet(db: DB, before: Time): set<Bytes> {
    set k | k in db.envelopes && Due(db.envelopes[k], before)
  }

  ghost predicate InRange(db: DB) {
    forall k :: k in db.envelopes ==> db.envelopes[k].expiresAtUnixMs <= MAX_EXPIRY_MS
  }

  /** Just before the last representable instant every wrapped expiry counts as expired. */
  lemma LastInstant(e: Envelope)
    requires e.expiresAtUnixMs > 0
    ensures Expired(e, TWO_TO_63 - 1)
  {
    var t := UnixMilli(e.expiresAtUnixMs);
    assert Wrap64(t) % 2 == 0 by { WrapKeepsEven(t, e.expiresAtUnixMs * 500_000); }
  }

  lemma WrapKeepsEven(t: int, half: int)
    requires t == 2 * half
    ensures Wrap64(t) % 2 == 0
  {
  }

  lemma ExpiredInRange(e: Envelope, before: Time)
    requires e.expiresAtUnixMs <= MAX_EXPIRY_MS && Representable(before)
    ensures Expired(e, before) <==> Due(e, before)
  {
    if e.expiresAtUnixMs > 0 { ExpiryNanosExact(e.expiresAtUnixMs); }
  }

  /** For every cutoff the index agrees with the true time exactly up to that millisecond; a later expiry wraps
      around to some time in the past. */
  lemma ExpiredIsDueExactly(e: Envelope)
    requires e.expiresAtUnixMs > 0
    ensures (forall before :: Representable(before) ==> (Expired(e, before) <==> Due(e, before)))
        <==> e.expiresAtUnixMs <= MAX_EXPIRY_MS
  {
    hide Expired;
    if e.expiresAtUnixMs <= MAX_EXPIRY_MS {
      forall before | Representable(before) ensures Expired(e, before) <==> Due(e, before) {
        ExpiredInRange(e, before);
      }
    } else {
      LastInstant(e);
      assert Representable(TWO_TO_63 - 1) && !Due(e, TWO_TO_63 - 1);
    }
  }

  /** So the reaper sees exactly the envelopes that are due, whatever the clock says, if and only if no stored
      expiry is beyond that. */
  lemma ExpiredSetIsDueExactly(db: DB)
    ensures (forall before :: Representable(before) ==> ExpiredSet(db, before) == DueSet(db, before)) <==> InRange(db)
  {
    hide Expired, Due;
    if InRange(db) {
      forall before | Representable(before) ensures ExpiredSet(db, before) == DueSet(db, before) {
        forall k | k in db.envelopes ensures k in ExpiredSet(db, before) <==> k in DueSet(db, before) {
          ExpiredInRange(db.envelopes[k], before);
        }
      }
    } else {
      var k :| k in db.envelopes && db.envelopes[k].expiresAtUnixMs > MAX_EXPIRY_MS;
      ExpiredIsDueExactly(db.envelopes[k]);
      var before :| Representable(before) && !(Expired(db.envelopes[k], before) <==> Due(db.envelopes[k], before));
      assert k in ExpiredSet(db, before) <==> k !in DueSet(db, before);
    }
  }

  /** An envelope stored with an expiry in range is due, and expired, at exactly the times after it. */
  lemma StoredIsDueExactly(before: DB, after: DB, k: Bytes, e: Envelope, t: Time)
    requires PutDone(before, after, k, e) && 0 < e.expiresAtUnixMs <= MAX_EXPIRY_MS && Representable(t)
    ensures k in DueSet(after, t) <==> e.expiresAtUnixMs * 1_000_000 < t
    ensures k in ExpiredSet(after, t) <==> e.expiresAtUnixMs * 1_000_000 < t
  {
    hide OthersKept, CountsFollow, Expired;
    ExpiredInRange(after.envelopes[k], t);
  }

  /** One stored without an expiry never is. */
  lemma StoredWithoutExpiry(before: DB, after: DB, k: Bytes, e: Envelope, t: Time)
    requires PutDone(before, after, k, e) && e.expiresAtUnixMs <= 0
    ensures k !in DueSet(after, t) && k !in ExpiredSet(after, t)
  {
    hide OthersKept, CountsFollow;
  }

  /** An envelope that expires one millisecond later than that is expired at every reading of a clock past
      1970, centuries early. */
  lemma FarFutureIsReaped(db: DB, k: Bytes, now: Time)
    requires k in db.envelopes && db.envelopes[k].expiresAtUnixMs == MAX_EXPIRY_MS + 1 && 0 <= now < TWO_TO_63
    ensures k in ExpiredSet(db, now) && k !in DueSet(db, now)
  {
    var t := UnixMilli(MAX_EXPIRY_MS + 1);
    assert TWO_TO_63 <= t < TWO_TO_63 + 1_000_000;
  }

  function EntryKeys(xs: seq<ExpiryEntry>): seq<Bytes> {
    seq(|xs|, i requires 0 <= i < |xs| => EntryKey(xs[i]))
  }

  function SelectedEntries(db: DB, before: Time, limit: int): seq<ExpiryEntry> {
    EntriesOf(Selected(db.index, before, limit))
  }

  // ---- Selection is exact ----

  /** A forward key of a stored envelope parses back to that envelope's key and expiry. */
  lemma EntryOfForward(db: DB, k: Bytes)
    requires Valid(db) && k in db.index.expiryByKey
    ensures var x := EntryOf(db.index.expiryByKey[k] + k);
            EntryKey(x) == k && EncodeTimestamp(x.expiresAt) == db.index.expiryByKey[k]
    ensures TimeOf(db.index.expiryByKey[k] + k) == db.index.expiryByKey[k]
  {
    hide EncodeTimestamp, DecodeTimestamp, EnvelopeKey, ParsedKey, HasTwoNuls;
    var ts := db.index.expiryByKey[k];
    var f := ts + k;
    assert f[..8] == ts && f[8..] == k;
    EncodeDecode(ts);
    BuildParsed(k);
  }

  /** The forward key of an envelope counts as expired exactly when the envelope's expiry is before the
      cutoff in nanoseconds. */
  lemma ExpiredForward(db: DB, before: Time, k: Bytes)
    requires Valid(db) && k in db.index.expiryByKey
    ensures db.index.expiryByKey[k] + k in ExpiredKeys(db.index, before) <==> k in ExpiredSet(db, before)
  {
    hide EncodeTimestamp, UnixMilli, UnixNano;
    EntryOfForward(db, k);
    TimestampOrder(UnixMilli(db.envelopes[k].expiresAtUnixMs), before);
  }

  lemma SelectedEntry(db: DB, before: Time, limit: int, i: nat)
    requires Valid(db) && i < |Selected(db.index, before, limit)|
    ensures var f, x := Selected(db.index, before, limit)[i], SelectedEntries(db, before, limit)[i];
            && EntryKey(x) in ExpiredSet(db, before)
            && f in db.index.byExpiry && db.index.byExpiry[f] == EntryKey(x)
            && EntryKey(x) in db.index.expiryByKey && f == db.index.expiryByKey[EntryKey(x)] + EntryKey(x)
            && StillExpires(db, x)
            && UnixNano(x.expiresAt) == ExpiryOf(db, EntryKey(x))
  {
    hide EncodeTimestamp, EntryOf, ExpiredKeys, SortedKeys, UnixNano, UnixMilli;
    var f := Selected(db.index, before, limit)[i];
    assert f in SortedKeys(ExpiredKeys(db.index, before));
    ExpiredKeysAreForward(db.index, before, f);
    var k := db.index.byExpiry[f];
    EntryOfForward(db, k);
    ExpiredForward(db, before, k);
    TimestampOrder(EntryOf(f).expiresAt, UnixMilli(db.envelopes[k].expiresAtUnixMs));
  }

  lemma ExpiredKeysAreForward(ix: Index, before: Time, f: Bytes)
    requires f in ExpiredKeys(ix, before)
    ensures f in ix.byExpiry
  {
  }

  /** Distinct entries are selected. */
  lemma SelectedKeysDistinct(db: DB, before: Time, limit: int)
    requires Valid(db)
    ensures var ks := EntryKeys(SelectedEntries(db, before, limit));
            forall i, j :: 0 <= i < j < |ks| ==> ks[i] != ks[j]
  {
    hide SortedKeys, ExpiredKeys, EntriesOf, EntryKey, StillExpires, ExpiryOf, UnixNano, ExpiredSet, Less, Valid;
    var fs := Selected(db.index, before, limit);
    var ks := EntryKeys(SelectedEntries(db, before, limit));
    EntriesLength(fs);
    forall i, j | 0 <= i < j < |ks| ensures ks[i] != ks[j] {
      SelectedEntry(db, before, limit, i);
      SelectedEntry(db, before, limit, j);
      LessAsymmetric(fs[i], fs[j]);
    }
  }

  lemma EntriesLength(fs: seq<Bytes>)
    ensures |EntriesOf(fs)| == |fs|
  {
  }

  /** The scan returns only expired envelopes; there are as many as exist, up to the limit; and no
      expired envelope left out expires earlier than one returned. */
  lemma SelectionIsExact(db: DB, before: Time, limit: nat)
    requires Valid(db)
    ensures var xs := SelectedEntries(db, before, limit);
            && (forall x :: x in xs ==> EntryKey(x) in ExpiredSet(db, before))
            && |xs| == (if |ExpiredSet(db, before)| < limit then |ExpiredSet(db, before)| else limit)
            && (forall i, j :: 0 <= i < j < |xs| ==> UnixNano(xs[i].expiresAt) <= UnixNano(xs[j].expiresAt))
            && (forall x, k :: x in xs && k in ExpiredSet(db, before) && k !in EntryKeys(xs)
                  ==> UnixNano(x.expiresAt) <= ExpiryOf(db, k))
  {
    hide SortedKeys, EntriesOf, EntryKey, StillExpires, ExpiryOf, UnixNano, ExpiredSet, Less, ExpiredKeys;
    var fs := Selected(db.index, before, limit);
    var xs := SelectedEntries(db, before, limit);
    EntriesLength(fs);
    ExpiredCount(db, before);
    forall x | x in xs ensures EntryKey(x) in ExpiredSet(db, before) {
      var i :| 0 <= i < |xs| && xs[i] == x;
      SelectedEntry(db, before, limit, i);
    }
    forall i, j | 0 <= i < j < |xs| ensures UnixNano(xs[i].expiresAt) <= UnixNano(xs[j].expiresAt) {
      SelectedEntry(db, before, limit, i);
      SelectedEntry(db, before, limit, j);
      EarlierForward(db, EntryKey(xs[i]), EntryKey(xs[j]));
    }
    forall x, k | x in xs && k in ExpiredSet(db, before) && k !in EntryKeys(xs)
      ensures UnixNano(x.expiresAt) <= ExpiryOf(db, k)
    {
      var i :| 0 <= i < |xs| && xs[i] == x;
      SelectedEntry(db, before, limit, i);
      NotSelectedIsLater(db, before, limit, i, x, k);
    }
  }

  /** While every stored expiry is in range, all this holds of the true times as well. */
  lemma SelectionIsInTimeOrder(db: DB, before: Time, limit: nat)
    requires Valid(db) && InRange(db) && Representable(before)
    ensures var xs := SelectedEntries(db, before, limit);
            && (forall x :: x in xs ==> EntryKey(x) in DueSet(db, before))
            && |xs| == (if |DueSet(db, before)| < limit then |DueSet(db, before)| else limit)
            && (forall x :: x in xs ==> x.expiresAt == UnixMilli(db.envelopes[EntryKey(x)].expiresAtUnixMs))
            && (forall i, j :: 0 <= i < j < |xs| ==> xs[i].expiresAt <= xs[j].expiresAt)
            && (forall x, k :: x in xs && k in DueSet(db, before) && k !in EntryKeys(xs)
                  ==> x.expiresAt <= UnixMilli(db.envelopes[k].expiresAtUnixMs))
  {
    hide SelectedEntries, EntryKeys, EntryKey, Valid, UnixNano;
    var xs := SelectedEntries(db, before, limit);
    ExpiredSetIsDueExactly(db);
    assert ExpiredSet(db, before) == DueSet(db, before);
    SelectionIsExact(db, before, limit);
    forall x | x in xs
      ensures x.expiresAt == UnixNano(x.expiresAt) == UnixMilli(db.envelopes[EntryKey(x)].expiresAtUnixMs)
    {
      SelectedInRange(db, before, limit, x);
    }
    forall k | k in DueSet(db, before) ensures ExpiryOf(db, k) == UnixMilli(db.envelopes[k].expiresAtUnixMs) {
      ExpiryNanosExact(db.envelopes[k].expiresAtUnixMs);
    }
  }

  lemma SelectedInRange(db: DB, before: Time, limit: nat, x: ExpiryEntry)
    requires Valid(db) && InRange(db) && x in SelectedEntries(db, before, limit)
    ensures EntryKey(x) in ExpiredSet(db, before)
    ensures x.expiresAt == UnixNano(x.expiresAt) == UnixMilli(db.envelopes[EntryKey(x)].expiresAtUnixMs)
  {
    hide Selected, EntryKey, UnixNano, Valid, EntryOf, Coherent;
    var xs := SelectedEntries(db, before, limit);
    var i :| 0 <= i < |xs| && xs[i] == x;
    EntriesLength(Selected(db.index, before, limit));
    SelectedEntry(db, before, limit, i);
    ExpiryNanosExact(db.envelopes[EntryKey(x)].expiresAtUnixMs);
    assert Coherent(db.index) by { ValidIsCoherent(db); }
    ForwardKeysAreLong(db.index);
    DecodedIsRepresentable(Selected(db.index, before, limit)[i]);
  }

  lemma ValidIsCoherent(db: DB)
    requires Valid(db)
    ensures Coherent(db.index)
  {
  }

  /** A decoded time is representable, so it is its own nanosecond count. */
  lemma DecodedIsRepresentable(f: Bytes)
    requires |f| >= 8
    ensures UnixNano(EntryOf(f).expiresAt) == EntryOf(f).expiresAt
  {
    hide ParsedKey, FromBigEndian;
  }

  /** Forward keys in byte order have expiries in time order. */
  lemma EarlierForward(db: DB, j: Bytes, k: Bytes)
    requires Valid(db) && j in db.index.expiryByKey && k in db.index.expiryByKey
    requires Less(db.index.expiryByKey[j] + j, db.index.expiryByKey[k] + k)
    ensures ExpiryOf(db, j) <= ExpiryOf(db, k)
  {
    hide EncodeTimestamp, UnixMilli, UnixNano, Less;
    var s, t := db.index.expiryByKey[j], db.index.expiryByKey[k];
    TimestampOrder(UnixMilli(db.envelopes[k].expiresAtUnixMs), UnixMilli(db.envelopes[j].expiresAtUnixMs));
    if Less(t, s) {
      assert (s + j)[..8] == s && (t + k)[..8] == t;
      LessPrefix(t + k, s + j, 8);
      LessAsymmetric(t + k, s + j);
    }
  }

  lemma SelectedKeyListed(db: DB, before: Time, limit: nat, j: nat)
    requires Valid(db) && j < |Selected(db.index, before, limit)|
    ensures var f := Selected(db.index, before, limit)[j];
            f in db.index.byExpiry && db.index.byExpiry[f] in EntryKeys(SelectedEntries(db, before, limit))
  {
    hide SortedKeys, ExpiredKeys, EntriesOf, EntryKey, StillExpires, ExpiryOf, UnixNano, ExpiredSet;
    SelectedEntry(db, before, limit, j);
    EntriesLength(Selected(db.index, before, limit));
    var xs := SelectedEntries(db, before, limit);
    assert EntryKeys(xs)[j] == EntryKey(xs[j]);
  }

  lemma NotSelectedIsLater(db: DB, before: Time, limit: nat, i: nat, x: ExpiryEntry, k: Bytes)
    requires Valid(db) && k in ExpiredSet(db, before)
    requires k !in EntryKeys(SelectedEntries(db, before, limit))
    requires i < |SelectedEntries(db, before, limit)| && x == SelectedEntries(db, before, limit)[i]
    ensures ExpiryOf(db, EntryKey(x)) <= ExpiryOf(db, k)
  {
    hide SortedKeys, EntriesOf, EntryKeys, EntryKey, StillExpires, ExpiryOf, UnixNano, Less, ExpiredKeys;
    var fs := Selected(db.index, before, limit);
    var all := SortedKeys(ExpiredKeys(db.index, before));
    EntriesLength(fs);
    SelectedEntry(db, before, limit, i);
    assert k in db.index.expiryByKey;
    ExpiredForward(db, before, k);
    var f := db.index.expiryByKey[k] + k;
    assert f in all;
    var j :| 0 <= j < |all| && all[j] == f;
    forall m | 0 <= m < |fs| ensures fs[m] != f { SelectedKeyListed(db, before, limit, m); }
    assert j >= |fs|;
    assert Less(all[i], all[j]);
    EarlierForward(db, EntryKey(x), k);
  }

  /** There is one expired forward key for each expired envelope. */
  lemma ExpiredCount(db: DB, before: Time)
    requires Valid(db)
    ensures |ExpiredKeys(db.index, before)| == |ExpiredSet(db, before)|
  {
    hide ExpiredKeys, EncodeTimestamp, ExpiryNanos, UnixNano, UnixMilli;
    forall k | k in ExpiredSet(db, before)
      ensures k in db.index.expiryByKey && db.index.expiryByKey[k] + k in ExpiredKeys(db.index, before)
    {
      ExpiredForward(db, before, k);
    }
    forall f | f in ExpiredKeys(db.index, before)
      ensures f in db.index.byExpiry && db.index.byExpiry[f] in ExpiredSet(db, before)
    {
      ExpiredKeysAreForward(db.index, before, f);
      ExpiredForward(db, before, db.index.byExpiry[f]);
    }
    ForwardCount(db.index, ExpiredSet(db, before), ExpiredKeys(db.index, before));
  }

  lemma {:induction false} ForwardCount(ix: Index, ks: set<Bytes>, fs: set<Bytes>)
    requires Coherent(ix)
    requires forall k :: k in ks ==> k in ix.expiryByKey && ix.expiryByKey[k] + k in fs
    requires forall f :: f in fs ==> f in ix.byExpiry && ix.byExpiry[f] in ks
    ensures |fs| == |ks|
    decreases ks
  {
    if ks == {} {
      assert forall f :: f !in fs;
      assert fs == {};
    } else {
      var k :| k in ks;
      var f := ix.expiryByKey[k] + k;
      assert ix.byExpiry[f] == k;
      var ks', fs' := ks - {k}, fs - {f};
      forall j | j in ks' ensures ix.expiryByKey[j] + j in fs' {
        ForwardDistinct(ix.expiryByKey[j], ix.expiryByKey[k], j, k);
      }
      forall g | g in fs' ensures ix.byExpiry[g] in ks' {
        assert g == ix.expiryByKey[ix.byExpiry[g]] + ix.byExpiry[g];
      }
      ForwardCount(ix, ks', fs');
    }
  }

  // ---- Safety when other transactions land between selection and deletion ----

  /** However the database changed since the selection, a delete that reports success removes only an
      envelope whose current expiry equals the snapshot's and is before the cutoff, in true time as well when
      it is in range; otherwise nothing changes; other envelopes are never touched, and the invariants and
      exact counts are kept. */
  lemma ReapIsSafe(db: DB, before: Time, limit: int, i: nat, ops: seq<MetaOp>)
    requires Valid(db) && i < |Selected(db.index, before, limit)|
    ensures |SelectedEntries(db, before, limit)| == |Selected(db.index, before, limit)|
    ensures var x, now := SelectedEntries(db, before, limit)[i], AppliedAll(db, ops);
            && (StillExpires(now, x) ==>
                  EntryKey(x) in now.envelopes && Expired(now.envelopes[EntryKey(x)], before)
                  && ExpiryNanos(now.envelopes[EntryKey(x)]) == UnixNano(x.expiresAt)
                  && (Representable(before) && now.envelopes[EntryKey(x)].expiresAtUnixMs <= MAX_EXPIRY_MS ==>
                        Due(now.envelopes[EntryKey(x)], before)))
            && (!StillExpires(now, x) ==> ReapTx(now, x) == now)
            && (forall k :: k != EntryKey(x) ==>
                  (k in ReapTx(now, x).envelopes <==> k in now.envelopes)
                  && (k in now.envelopes ==> ReapTx(now, x).envelopes[k] == now.envelopes[k]))
            && Valid(ReapTx(now, x)) && (Exact(now) ==> Exact(ReapTx(now, x)))
  {
    hide Selected, SelectedEntries, EntryKey, EntriesOf, StillExpires, ReapTx, Expired, ExpiryNanos, UnixNano,
      AppliedAll, Exact, Valid, Due;
    EntriesLength(Selected(db.index, before, limit));
    SnapshotIsExpired(db, before, limit, i);
    AppliedAllValid(db, ops);
    var x, now := SelectedEntries(db, before, limit)[i], AppliedAll(db, ops);
    ReapValid(now, x);
    ReapCounts(now, x);
    ReapRemovesOnlyMatching(now, before, x);
    if StillExpires(now, x) && Representable(before) && now.envelopes[EntryKey(x)].expiresAtUnixMs <= MAX_EXPIRY_MS {
      ExpiredInRange(now.envelopes[EntryKey(x)], before);
    }
  }

  lemma SnapshotIsExpired(db: DB, before: Time, limit: int, i: nat)
    requires Valid(db) && i < |Selected(db.index, before, limit)|
    ensures |SelectedEntries(db, before, limit)| == |Selected(db.index, before, limit)|
    ensures UnixNano(SelectedEntries(db, before, limit)[i].expiresAt) < UnixNano(before)
  {
    hide Selected, EntryKey, EntriesOf, StillExpires, ExpiryNanos, UnixNano;
    EntriesLength(Selected(db.index, before, limit));
    SelectedEntry(db, before, limit, i);
  }

  lemma ReapRemovesOnlyMatching(now: DB, before: Time, x: ExpiryEntry)
    requires Valid(now) && UnixNano(x.expiresAt) < UnixNano(before)
    ensures StillExpires(now, x) ==>
              EntryKey(x) in now.envelopes && Expired(now.envelopes[EntryKey(x)], before)
              && ExpiryNanos(now.envelopes[EntryKey(x)]) == UnixNano(x.expiresAt)
    ensures !StillExpires(now, x) ==> ReapTx(now, x) == now
    ensures forall k :: k != EntryKey(x) ==>
              (k in ReapTx(now, x).envelopes <==> k in now.envelopes)
              && (k in now.envelopes ==> ReapTx(now, x).envelopes[k] == now.envelopes[k])
  {
    hide EntryKey, EncodeTimestamp, UnixNano, UnixMilli, Decreased, Unindexed, HasTwoNuls, NoDup, Coherent;
    if StillExpires(now, x) {
      TimestampOrder(UnixMilli(now.envelopes[EntryKey(x)].expiresAtUnixMs), x.expiresAt);
    }
  }

  // ---- Removing a set of envelopes ----

  function RemovedIndex(ix: Index, ks: set<Bytes>): Index {
    Index(map f | f in ix.byExpiry && ix.byExpiry[f] !in ks :: ix.byExpiry[f], ix.expiryByKey - ks)
  }

  function LoweredBy(rows: Rows, refs: map<Bytes, seq<Hash>>, ks: set<Bytes>): Rows {
    map h | h in rows :: Lowered(rows[h], |Referrers(refs, h) * ks|)
  }

  function Lowered(e: BlobEntry, n: nat): BlobEntry { e.(refCount := Monus(e.refCount, n)) }

  lemma LoweredEntry(e: BlobEntry, m: nat, n: nat)
    ensures Lowered(Lowered(e, m), n) == Lowered(e, m + n) && Lowered(e, 0) == e
  {
  }

  /** The database without the envelopes in `ks`: every count lowered by the number of removed envelopes
      that named the hash. */
  function RemovedAll(db: DB, ks: set<Bytes>): DB {
    DB(db.envelopes - ks, db.refs - ks, RemovedIndex(db.index, ks), LoweredBy(db.blobs, db.refs, ks))
  }

  lemma UnindexedIsRemoved(ix: Index, k: Bytes)
    requires Coherent(ix)
    ensures Unindexed(ix, k) == RemovedIndex(ix, {k})
  {
    var a, b := Unindexed(ix, k), RemovedIndex(ix, {k});
    if k in ix.expiryByKey {
      forall f | f in ix.byExpiry ensures f in a.byExpiry <==> f in b.byExpiry {
        assert ix.byExpiry[f] == k ==> f == ix.expiryByKey[k] + k;
      }
      assert a.byExpiry == b.byExpiry;
    } else {
      assert a.byExpiry == b.byExpiry;
      assert a.expiryByKey == b.expiryByKey;
    }
  }

  /** Deleting one envelope is removing a singleton set. */
  lemma DroppedIsRemoved(db: DB, k: Bytes)
    requires Valid(db)
    ensures Dropped(db, k) == RemovedAll(db, {k})
  {
    hide Unindexed, RemovedIndex, Referrers;
    UnindexedIsRemoved(db.index, k);
    forall h | h in db.blobs
      ensures Decreased(db.blobs, RefsOf(db, k))[h] == LoweredBy(db.blobs, db.refs, {k})[h]
    {
      ReferrersIn(db.refs, h, k);
    }
  }

  lemma ReferrersIn(refs: map<Bytes, seq<Hash>>, h: Hash, k: Bytes)
    ensures |Referrers(refs, h) * {k}| == if k in refs && h in refs[k] then 1 else 0
  {
    assert Referrers(refs, h) * {k} == if k in refs && h in refs[k] then {k} else {};
  }

  /** Removing two disjoint sets one after the other is removing their union. */
  lemma RemovedTwice(db: DB, ks: set<Bytes>, js: set<Bytes>)
    requires ks !! js
    ensures RemovedAll(RemovedAll(db, ks), js) == RemovedAll(db, ks + js)
  {
    hide RemovedIndex, LoweredBy;
    assert db.envelopes - ks - js == db.envelopes - (ks + js);
    assert db.refs - ks - js == db.refs - (ks + js);
    RemovedIndexTwice(db.index, ks, js);
    LoweredTwice(db.blobs, db.refs, ks, js);
  }

  lemma LoweredKeys(rows: Rows, refs: map<Bytes, seq<Hash>>, ks: set<Bytes>)
    ensures LoweredBy(rows, refs, ks).Keys == rows.Keys
  {
  }

  lemma LoweredAt(rows: Rows, refs: map<Bytes, seq<Hash>>, ks: set<Bytes>, h: Hash)
    requires h in rows
    ensures LoweredBy(rows, refs, ks)[h] == Lowered(rows[h], |Referrers(refs, h) * ks|)
  {
  }

  lemma LoweredTwice(rows: Rows, refs: map<Bytes, seq<Hash>>, ks: set<Bytes>, js: set<Bytes>)
    requires ks !! js
    ensures LoweredBy(LoweredBy(rows, refs, ks), refs - ks, js) == LoweredBy(rows, refs, ks + js)
  {
    hide Referrers, Lowered, LoweredBy;
    var a, b := LoweredBy(LoweredBy(rows, refs, ks), refs - ks, js), LoweredBy(rows, refs, ks + js);
    LoweredKeys(rows, refs, ks);
    LoweredKeys(LoweredBy(rows, refs, ks), refs - ks, js);
    LoweredKeys(rows, refs, ks + js);
    forall h | h in rows ensures a[h] == b[h] {
      LoweredAt(rows, refs, ks, h);
      LoweredAt(LoweredBy(rows, refs, ks), refs - ks, js, h);
      LoweredAt(rows, refs, ks + js, h);
      ReferrersSplit(refs, h, ks, js);
      LoweredEntry(rows[h], |Referrers(refs, h) * ks|, |Referrers(refs - ks, h) * js|);
    }
  }

  lemma RemovedIndexTwice(ix: Index, ks: set<Bytes>, js: set<Bytes>)
    ensures RemovedIndex(RemovedIndex(ix, ks), js) == RemovedIndex(ix, ks + js)
  {
    assert ix.expiryByKey - ks - js == ix.expiryByKey - (ks + js);
  }

  lemma ReferrersSplit(refs: map<Bytes, seq<Hash>>, h: Hash, ks: set<Bytes>, js: set<Bytes>)
    requires ks !! js
    ensures |Referrers(refs, h) * (ks + js)| == |Referrers(refs, h) * ks| + |Referrers(refs - ks, h) * js|
  {
    var r := Referrers(refs, h);
    assert r * (ks + js) == r * ks + r * js;
    assert Referrers(refs - ks, h) * js == r * js;
  }

  lemma RemovedNone(db: DB)
    ensures RemovedAll(db, {}) == db
  {
    hide LoweredBy, RemovedIndex;
    assert db.envelopes - {} == db.envelopes;
    assert db.refs - {} == db.refs;
    RemovedIndexNone(db.index);
    LoweredByNone(db.blobs, db.refs);
  }

  lemma RemovedIndexNone(ix: Index)
    ensures RemovedIndex(ix, {}) == ix
  {
    assert ix.expiryByKey - {} == ix.expiryByKey;
    assert RemovedIndex(ix, {}).byExpiry == ix.byExpiry;
  }

  lemma LoweredByNone(rows: Rows, refs: map<Bytes, seq<Hash>>)
    ensures LoweredBy(rows, refs, {}) == rows
  {
    hide Referrers, Lowered;
    forall h | h in rows ensures LoweredBy(rows, refs, {})[h] == rows[h] {
      assert Referrers(refs, h) * {} == {};
      LoweredEntry(rows[h], 0, 0);
    }
  }

  lemma ExpiredAfterRemoval(db: DB, ks: set<Bytes>, before: Time)
    ensures ExpiredSet(RemovedAll(db, ks), before) == ExpiredSet(db, before) - ks
  {
  }

  /** An entry that no removal touched still expires. */
  lemma StillExpiresAfterRemoval(db: DB, ks: set<Bytes>, x: ExpiryEntry)
    requires EntryKey(x) !in ks
    ensures StillExpires(RemovedAll(db, ks), x) == StillExpires(db, x)
  {
    hide EntryKey, EncodeTimestamp;
  }

  // ---- The reaper ----

  /** What goes wrong in a batch: the query, the deletions of some keys, and a cancellation noticed before the
      given entry. */
  datatype BatchFaults = BatchFaults(select: bool, failing: set<Bytes>, cancelledAt: Option<nat>)

  const NO_BATCH_FAULT := BatchFaults(false, {}, None)

  /** The faults of the first batch, the second, and so on. */
  type BatchPlan = nat -> BatchFaults

  ghost predicate NothingFails(plan: BatchPlan) { forall n :: plan(n) == NO_BATCH_FAULT }

  /** The number of entries a batch gets to. */
  function Reached(f: BatchFaults, n: nat): nat {
    if f.select then 0 else if f.cancelledAt.Some? && f.cancelledAt.value < n then f.cancelledAt.value else n
  }

  predicate NoneFails(f: BatchFaults, xs: seq<ExpiryEntry>) {
    forall j :: 0 <= j < |xs| ==> EntryKey(xs[j]) !in f.failing
  }

  /** The database when entry `i` is about to be deleted. */
  ghost function BeforeDelete(db: DB, xs: seq<ExpiryEntry>, i: nat, f: BatchFaults, among: nat -> seq<MetaOp>): DB
    requires i < |xs|
  {
    AppliedAll(BatchState(db, xs, i, f, among), among(i))
  }

  /** The database after the first `n` entries. */
  ghost function BatchState(db: DB, xs: seq<ExpiryEntry>, n: nat, f: BatchFaults, among: nat -> seq<MetaOp>): DB
    requires n <= |xs|
  {
    if n == 0 then db
    else
      var d := AppliedAll(BatchState(db, xs, n - 1, f, among), among(n - 1));
      if EntryKey(xs[n - 1]) in f.failing then d else ReapTx(d, xs[n - 1])
  }

  ghost function BatchDeleted(db: DB, xs: seq<ExpiryEntry>, n: nat, f: BatchFaults, among: nat -> seq<MetaOp>): nat
    requires n <= |xs|
  {
    if n == 0 then 0
    else
      var d := AppliedAll(BatchState(db, xs, n - 1, f, among), among(n - 1));
      var gone := EntryKey(xs[n - 1]) !in f.failing && StillExpires(d, xs[n - 1]);
      BatchDeleted(db, xs, n - 1, f, among) + if gone then 1 else 0
  }

  /** Nothing lands in between. */
  const ALONE: nat -> seq<MetaOp> := _ => []

  /** The keys deleted by the first `n` entries of a batch that runs alone. */
  function Reaped(xs: seq<ExpiryEntry>, n: nat, f: BatchFaults): set<Bytes>
    requires n <= |xs|
  {
    if n == 0 then {}
    else
      var k := EntryKey(xs[n - 1]);
      Reaped(xs, n - 1, f) + if k in f.failing then {} else {k}
  }

  function Batch(db: DB, now: Time, limit: int, f: BatchFaults): set<Bytes> {
    var xs := SelectedEntries(db, now, limit);
    Reaped(xs, Reached(f, |xs|), f)
  }

  ghost predicate HasMore(xs: seq<ExpiryEntry>, limit: int, f: BatchFaults) {
    xs != [] && |xs| == limit == Reached(f, |xs|) && NoneFails(f, xs)
  }

  lemma {:induction false} ReapedMembers(xs: seq<ExpiryEntry>, n: nat, f: BatchFaults)
    requires n <= |xs|
    ensures forall k :: k in Reaped(xs, n, f) <==> exists j :: 0 <= j < n && EntryKey(xs[j]) == k && k !in f.failing
  {
    hide EntryKey;
    if n > 0 {
      ReapedMembers(xs, n - 1, f);
      var k := EntryKey(xs[n - 1]);
      assert k !in f.failing ==> k in Reaped(xs, n, f);
    }
  }

  lemma {:induction false} StateAlone(db: DB, xs: seq<ExpiryEntry>, n: nat, f: BatchFaults)
    requires Valid(db) && n <= |xs|
    requires forall x :: x in xs ==> StillExpires(db, x)
    requires forall i, j :: 0 <= i < j < |xs| ==> EntryKey(xs[i]) != EntryKey(xs[j])
    ensures BatchState(db, xs, n, f, ALONE) == RemovedAll(db, Reaped(xs, n, f))
    ensures Valid(RemovedAll(db, Reaped(xs, n, f)))
    ensures BatchDeleted(db, xs, n, f, ALONE) == |Reaped(xs, n, f)|
    ensures NoneFails(f, xs) ==> |Reaped(xs, n, f)| == n
  {
    hide EntryKey, StillExpires, RemovedAll, Valid, ReapTx, AppliedAll, Reaped;
    NothingReaped(xs, f);
    if n == 0 {
      RemovedNone(db);
    } else {
      var x := xs[n - 1];
      var removed := Reaped(xs, n - 1, f);
      StateAlone(db, xs, n - 1, f);
      AppliedNothing(RemovedAll(db, removed));
      ReapedMembers(xs, n - 1, f);
      assert x in xs && EntryKey(x) !in removed;
      ReapedOneMore(xs, n, f);
      StillExpiresAfterRemoval(db, removed, x);
      ReapedOne(db, removed, x);
      ReapValid(RemovedAll(db, removed), x);
    }
  }

  lemma AppliedNothing(db: DB)
    ensures AppliedAll(db, []) == db
  {
  }

  lemma NothingReaped(xs: seq<ExpiryEntry>, f: BatchFaults)
    ensures Reaped(xs, 0, f) == {}
  {
  }

  lemma ReapedOneMore(xs: seq<ExpiryEntry>, n: nat, f: BatchFaults)
    requires 0 < n <= |xs|
    ensures var k := EntryKey(xs[n - 1]);
            var removed := Reaped(xs, n - 1, f);
            && Reaped(xs, n, f) == (if k in f.failing then removed else removed + {k})
            && (k !in removed ==> |removed + {k}| == |removed| + 1)
  {
    hide EntryKey;
  }

  /** A batch that runs alone removes a set of expired envelopes: as many as it could when it asks for more, and
      all of them when it does not and nothing went wrong. */
  lemma BatchAlone(db: DB, now: Time, limit: int, f: BatchFaults)
    requires Valid(db)
    ensures var xs, batch := SelectedEntries(db, now, limit), Batch(db, now, limit, f);
            var n := Reached(f, |xs|);
            && BatchState(db, xs, n, f, ALONE) == RemovedAll(db, batch)
            && BatchDeleted(db, xs, n, f, ALONE) == |batch| && batch <= ExpiredSet(db, now) - f.failing
            && (HasMore(xs, limit, f) ==> |batch| == limit > 0)
            && (f == NO_BATCH_FAULT && limit >= 1 && !HasMore(xs, limit, f) ==> batch == ExpiredSet(db, now))
  {
    hide ExpiredSet, RemovedAll, EntryKey, StillExpires, SelectedEntries, Valid, BatchState, BatchDeleted;
    var xs, batch := SelectedEntries(db, now, limit), Batch(db, now, limit, f);
    var n := Reached(f, |xs|);
    SelectedFacts(db, now, limit);
    StateAlone(db, xs, n, f);
    ReapedMembers(xs, n, f);
    if f == NO_BATCH_FAULT && limit >= 1 && !HasMore(xs, limit, f) {
      if xs == [] {
        assert batch == {};
      } else {
        AllSelectedRemoved(db, now, limit, batch);
      }
    }
  }

  lemma {:induction false} BatchStateValid(db: DB, xs: seq<ExpiryEntry>, n: nat, f: BatchFaults,
                                           among: nat -> seq<MetaOp>)
    requires Valid(db) && n <= |xs|
    ensures Valid(BatchState(db, xs, n, f, among))
  {
    hide Valid, ReapTx, AppliedAll, EntryKey;
    if n > 0 {
      var d := BatchState(db, xs, n - 1, f, among);
      BatchStateValid(db, xs, n - 1, f, among);
      AppliedAllValid(d, among(n - 1));
      ReapValid(AppliedAll(d, among(n - 1)), xs[n - 1]);
    }
  }

  /** Whatever lands in between, each deletion of a batch removes its envelope only while that envelope's
      expiry is still the selected one and before the cutoff, and touches no other envelope. */
  lemma BatchIsSafe(db: DB, now: Time, limit: int, i: nat, f: BatchFaults, among: nat -> seq<MetaOp>)
    requires Valid(db) && i < |SelectedEntries(db, now, limit)|
    ensures var xs := SelectedEntries(db, now, limit);
            var x, d := xs[i], BeforeDelete(db, xs, i, f, among);
            && Valid(d)
            && (StillExpires(d, x) ==>
                  EntryKey(x) in d.envelopes && Expired(d.envelopes[EntryKey(x)], now)
                  && ExpiryNanos(d.envelopes[EntryKey(x)]) == UnixNano(x.expiresAt))
            && (!StillExpires(d, x) ==> ReapTx(d, x) == d)
            && (forall k :: k != EntryKey(x) ==>
                  (k in ReapTx(d, x).envelopes <==> k in d.envelopes)
                  && (k in d.envelopes ==> ReapTx(d, x).envelopes[k] == d.envelopes[k]))
  {
    hide Selected, SelectedEntries, EntryKey, EntriesOf, StillExpires, ReapTx, Expired, ExpiryNanos, UnixNano,
      AppliedAll, BatchState, Valid;
    var xs := SelectedEntries(db, now, limit);
    SelectedLength(db, now, limit);
    SnapshotIsExpired(db, now, limit, i);
    BatchStateValid(db, xs, i, f, among);
    AppliedAllValid(BatchState(db, xs, i, f, among), among(i));
    ReapRemovesOnlyMatching(BeforeDelete(db, xs, i, f, among), now, xs[i]);
  }

  lemma SelectedLength(db: DB, now: Time, limit: int)
    ensures |SelectedEntries(db, now, limit)| == |Selected(db.index, now, limit)|
  {
    hide Selected, EntriesOf;
    EntriesLength(Selected(db.index, now, limit));
  }

  // ---- What a cycle with a clock achieves ----

  /** The reading that the time budget is tested against before batch `j`. */
  function TestReading(j: nat): nat { 2 * j + 1 }

  lemma NextReading(j: nat)
    ensures TestReading(0) == 1 && TestReading(j) > 0 && TestReading(j + 1) == TestReading(j) + 2
  {
  }

  /** The first `m` tests pass. */
  ghost predicate InBudget(clock: nat -> Time, maxDuration: int, m: nat) {
    forall j: nat :: j < m ==> clock(TestReading(j)) <= clock(0) + maxDuration
  }

  /** The clock never goes back and stays within what can be encoded. */
  ghost predicate Steady(clock: nat -> Time) {
    && (forall n :: Representable(clock(n)))
    && forall m, n :: m <= n ==> clock(m) <= clock(n)
  }

  ghost predicate Uncancelled(cancelled: nat -> bool) { forall n :: !cancelled(n) }

  /** How many keys a loop that removes them has left. */
  ghost function Left(keys: set<Bytes>, removed: set<Bytes>): nat { |keys - removed| }

  function Least(a: int, b: int): int { if a < b then a else b }

  /** What has expired stays expired. */
  lemma LaterExpired(db: DB, s: Time, t: Time)
    requires Representable(s) && Representable(t) && s <= t
    ensures ExpiredSet(db, s) <= ExpiredSet(db, t)
  {
  }

  lemma SubsetNotLarger(a: set<Bytes>, b: set<Bytes>)
    requires a <= b
    ensures |a| <= |b|
  {
    assert b == a + (b - a);
  }

  /** Where the cycle stands after some batches without failures: each of them was full, or the last one was
      short and nothing expired at the start is left. */
  ghost predicate Progress(db: DB, clock: nat -> Time, limit: int, batches: nat, hasMore: bool, removed: set<Bytes>) {
    if hasMore then |removed| >= batches * limit else ExpiredSet(db, clock(0)) <= removed
  }

  lemma BatchProgress(db: DB, clock: nat -> Time, limit: int, batches: nat, removed: set<Bytes>, batch: set<Bytes>,
                      t: nat, more: bool)
    requires Steady(clock) && limit >= 1 && Progress(db, clock, limit, batches, true, removed)
    requires batch !! removed
    requires if more then |batch| == limit else batch == ExpiredSet(RemovedAll(db, removed), clock(t))
    ensures Progress(db, clock, limit, batches + 1, more, removed + batch)
  {
    hide ExpiredSet, RemovedAll;
    if more {
      assert |removed + batch| == |removed| + |batch|;
      assert (batches + 1) * limit == batches * limit + limit;
    } else {
      ExpiredAfterRemoval(db, removed, clock(t));
      LaterExpired(db, clock(0), clock(t));
    }
  }

  lemma FirstBatch(db: DB, now: Time, limit: int, batch: set<Bytes>, more: bool, removed: set<Bytes>)
    requires if more then |batch| == limit else batch == ExpiredSet(db, now)
    requires batch <= removed
    ensures Least(limit, |ExpiredSet(db, now)|) <= |removed|
  {
    hide ExpiredSet;
    SubsetNotLarger(batch, removed);
  }

  /** When a cycle ends with its budget used up after some batches, at most so many tests passed. */
  lemma CycleEnds(db: DB, clock: nat -> Time, maxDuration: int, limit: int, batches: nat, hasMore: bool,
                  removed: set<Bytes>, m: nat)
    requires limit >= 1 && Progress(db, clock, limit, batches, hasMore, removed) && InBudget(clock, maxDuration, m)
    requires hasMore ==> clock(TestReading(batches)) > clock(0) + maxDuration
    ensures Least(m * limit, |ExpiredSet(db, clock(0))|) <= |removed|
  {
    hide ExpiredSet;
    if hasMore {
      assert m <= batches;
      Multiples(m, batches, limit);
    } else {
      SubsetNotLarger(ExpiredSet(db, clock(0)), removed);
    }
  }

  lemma Multiples(m: nat, n: nat, limit: nat)
    requires m <= n
    ensures m * limit <= n * limit
  {
  }

  /** Nothing fails, nothing is cancelled, and the clock does not go back. */
  ghost predicate Smooth(clock: nat -> Time, limit: int, plan: BatchPlan, cancelled: nat -> bool) {
    NothingFails(plan) && limit >= 1 && Uncancelled(cancelled) && Steady(clock)
  }

  /** A cycle after some batches. */
  ghost predicate Cycling(db: DB, clock: nat -> Time, maxDuration: int, limit: int, plan: BatchPlan,
                          cancelled: nat -> bool, batches: nat, hasMore: bool, removed: set<Bytes>) {
    && removed <= db.envelopes.Keys
    && (forall k :: k in removed ==> exists t :: k in ExpiredSet(db, clock(t)))
    && (Smooth(clock, limit, plan, cancelled) ==> Progress(db, clock, limit, batches, hasMore, removed))
    && (plan(0) == NO_BATCH_FAULT && limit >= 1 && batches > 0 ==>
          Least(limit, |ExpiredSet(db, clock(2))|) <= |removed|)
    && (batches == 0 ==> removed == {} && hasMore)
    && (batches > 0 ==> clock(1) <= clock(0) + maxDuration)
  }

  lemma StartCycle(db: DB, clock: nat -> Time, maxDuration: int, limit: int, plan: BatchPlan, cancelled: nat -> bool)
    ensures Cycling(db, clock, maxDuration, limit, plan, cancelled, 0, true, {})
    ensures RemovedAll(db, {}) == db
  {
    hide ExpiredSet, RemovedAll;
    RemovedNone(db);
  }

  /** What one batch does to the database. */
  lemma CycleBatch(db: DB, now: Time, limit: int, f: BatchFaults, removed: set<Bytes>)
    requires Valid(RemovedAll(db, removed)) && removed <= db.envelopes.Keys
    ensures var cur := RemovedAll(db, removed);
            var xs, batch := SelectedEntries(cur, now, limit), Batch(cur, now, limit, f);
            var n, more := Reached(f, |xs|), HasMore(xs, limit, f);
            && BatchState(cur, xs, n, f, ALONE) == RemovedAll(db, removed + batch)
            && BatchDeleted(cur, xs, n, f, ALONE) == |batch|
            && batch !! removed && batch <= ExpiredSet(db, now) && removed + batch <= db.envelopes.Keys
            && (more ==> |batch| == limit > 0)
            && (f == NO_BATCH_FAULT && limit >= 1 && !more ==> batch == ExpiredSet(cur, now))
  {
    hide ExpiredSet, RemovedAll, Valid, SelectedEntries, Batch, BatchState, BatchDeleted, HasMore, Reached;
    var cur := RemovedAll(db, removed);
    BatchAlone(cur, now, limit, f);
    BatchJoins(db, removed, Batch(cur, now, limit, f), now);
    ExpiredIsStored(db, now);
  }

  lemma MoreRemoved(keys: set<Bytes>, removed: set<Bytes>, batch: set<Bytes>)
    requires batch !! removed && removed + batch <= keys
    ensures |removed + batch| == |removed| + |batch|
    ensures |keys - (removed + batch)| == |keys - removed| - |batch|
  {
    assert keys - (removed + batch) == (keys - removed) - batch;
  }

  /** What it adds to a drain at a fixed time. */
  lemma DrainBatch(db: DB, now: Time, limit: int, f: BatchFaults, removed: set<Bytes>)
    requires Valid(RemovedAll(db, removed)) && removed <= ExpiredSet(db, now)
    ensures var cur := RemovedAll(db, removed);
            var xs, batch := SelectedEntries(cur, now, limit), Batch(cur, now, limit, f);
            var n, more, next := Reached(f, |xs|), HasMore(xs, limit, f), removed + batch;
            && BatchState(cur, xs, n, f, ALONE) == RemovedAll(db, next) && next <= ExpiredSet(db, now)
            && |next| == |removed| + BatchDeleted(cur, xs, n, f, ALONE)
            && (!more && f == NO_BATCH_FAULT && limit >= 1 ==> next == ExpiredSet(db, now))
            && (more ==> Left(ExpiredSet(db, now), next) < Left(ExpiredSet(db, now), removed))
  {
    hide ExpiredSet, RemovedAll, Valid, SelectedEntries, Batch, BatchState, BatchDeleted, HasMore, Reached;
    ExpiredIsStored(db, now);
    CycleBatch(db, now, limit, f, removed);
    ExpiredAfterRemoval(db, removed, now);
    MoreRemoved(ExpiredSet(db, now), removed, Batch(RemovedAll(db, removed), now, limit, f));
  }

  /** What it adds to the cycle. */
  lemma CycleAdvance(db: DB, clock: nat -> Time, maxDuration: int, limit: int, plan: BatchPlan,
                     cancelled: nat -> bool, batches: nat, removed: set<Bytes>, batch: set<Bytes>, more: bool)
    requires Cycling(db, clock, maxDuration, limit, plan, cancelled, batches, true, removed)
    requires clock(TestReading(batches)) <= clock(0) + maxDuration
    requires var now := clock(TestReading(batches) + 1);
             && batch !! removed && batch <= ExpiredSet(db, now) && removed + batch <= db.envelopes.Keys
             && (more ==> |batch| == limit > 0)
             && (plan(batches) == NO_BATCH_FAULT && limit >= 1 && !more ==>
                   batch == ExpiredSet(RemovedAll(db, removed), now))
    ensures Cycling(db, clock, maxDuration, limit, plan, cancelled, batches + 1, more, removed + batch)
  {
    hide ExpiredSet, RemovedAll, Progress, Steady, NothingFails, Uncancelled, Least;
    var t := TestReading(batches) + 1;
    if Smooth(clock, limit, plan, cancelled) {
      NoFaultAt(plan, batches);
      BatchProgress(db, clock, limit, batches, removed, batch, t, more);
    }
    if plan(0) == NO_BATCH_FAULT && limit >= 1 {
      if batches == 0 {
        RemovedNone(db);
        FirstBatch(db, clock(2), limit, batch, more, removed + batch);
      } else {
        SubsetNotLarger(removed, removed + batch);
      }
    }
    forall k | k in removed + batch ensures exists u :: k in ExpiredSet(db, clock(u)) {
      if k in batch { assert k in ExpiredSet(db, clock(t)); }
    }
  }

  lemma CycleStep(db: DB, clock: nat -> Time, maxDuration: int, limit: int, plan: BatchPlan, cancelled: nat -> bool,
                  batches: nat, removed: set<Bytes>)
    requires Cycling(db, clock, maxDuration, limit, plan, cancelled, batches, true, removed)
    requires Valid(RemovedAll(db, removed)) && clock(TestReading(batches)) <= clock(0) + maxDuration
    ensures var cur, now, f := RemovedAll(db, removed), clock(TestReading(batches) + 1), plan(batches);
            var xs, batch := SelectedEntries(cur, now, limit), Batch(cur, now, limit, f);
            var n, more := Reached(f, |xs|), HasMore(xs, limit, f);
            && Cycling(db, clock, maxDuration, limit, plan, cancelled, batches + 1, more, removed + batch)
            && BatchState(cur, xs, n, f, ALONE) == RemovedAll(db, removed + batch)
            && BatchDeleted(cur, xs, n, f, ALONE) == |batch| && |removed + batch| == |removed| + |batch|
            && (more ==> |db.envelopes.Keys - (removed + batch)| < |db.envelopes.Keys - removed|)
  {
    hide ExpiredSet, RemovedAll, Valid, SelectedEntries, Batch, BatchState, BatchDeleted, HasMore, Reached, Cycling;
    var cur, now, f := RemovedAll(db, removed), clock(TestReading(batches) + 1), plan(batches);
    var batch := Batch(cur, now, limit, f);
    RemovedAreStored(db, clock, maxDuration, limit, plan, cancelled, batches, removed);
    CycleBatch(db, now, limit, f, removed);
    CycleAdvance(db, clock, maxDuration, limit, plan, cancelled, batches, removed, batch,
                 HasMore(SelectedEntries(cur, now, limit), limit, f));
    MoreRemoved(db.envelopes.Keys, removed, batch);
  }

  lemma RemovedAreStored(db: DB, clock: nat -> Time, maxDuration: int, limit: int, plan: BatchPlan,
                         cancelled: nat -> bool, batches: nat, removed: set<Bytes>)
    requires Cycling(db, clock, maxDuration, limit, plan, cancelled, batches, true, removed)
    ensures removed <= db.envelopes.Keys
  {
    hide ExpiredSet, Progress, Smooth;
  }

  /** What a cycle achieves with the envelopes that were stored when it started. */
  ghost predicate Achieves(db: DB, clock: nat -> Time, maxDuration: int, limit: int, plan: BatchPlan,
                           cancelled: nat -> bool, removed: set<Bytes>) {
    && removed <= db.envelopes.Keys
    // Every removed envelope was expired at one of the readings.
    && (forall k :: k in removed ==> exists t :: k in ExpiredSet(db, clock(t)))
    // With time for m batches, as many of those expired at the start as these hold.
    && (Smooth(clock, limit, plan, cancelled) ==>
          forall m: nat :: InBudget(clock, maxDuration, m) ==>
            Least(m * limit, |ExpiredSet(db, clock(0))|) <= |removed|)
    // With time without end, all of those expired at the start.
    && (Smooth(clock, limit, plan, cancelled) && (forall m: nat :: InBudget(clock, maxDuration, m)) ==>
          ExpiredSet(db, clock(0)) <= removed)
    // With time for the first batch, whatever comes after it.
    && (plan(0) == NO_BATCH_FAULT && limit >= 1 && clock(1) <= clock(0) + maxDuration ==>
          Least(limit, |ExpiredSet(db, clock(2))|) <= |removed|)
    // With no time at all, nothing.
    && (clock(1) > clock(0) + maxDuration ==> removed == {})
  }

  lemma CycleResult(db: DB, clock: nat -> Time, maxDuration: int, limit: int, plan: BatchPlan, cancelled: nat -> bool,
                    batches: nat, hasMore: bool, removed: set<Bytes>)
    requires Cycling(db, clock, maxDuration, limit, plan, cancelled, batches, hasMore, removed)
    requires hasMore ==>
               clock(TestReading(batches)) > clock(0) + maxDuration || (batches > 0 && !Uncancelled(cancelled))
    ensures Achieves(db, clock, maxDuration, limit, plan, cancelled, removed)
  {
    hide ExpiredSet, Progress, Least, InBudget, Steady, NothingFails, Uncancelled;
    if Smooth(clock, limit, plan, cancelled) {
      forall m: nat | InBudget(clock, maxDuration, m)
        ensures Least(m * limit, |ExpiredSet(db, clock(0))|) <= |removed|
      {
        CycleEnds(db, clock, maxDuration, limit, batches, hasMore, removed, m);
      }
      NeverOver(db, clock, maxDuration, limit, batches, hasMore, removed);
    }
  }

  class EnvelopeReaper {
    const db: BoltDB
    const batchSize: int
    var lastReapTime: Option<Time>
    var lastReapCount: nat
    var totalReaped: nat

    constructor (db: BoltDB, batchSize: int)
      ensures this.db == db && this.batchSize == batchSize && totalReaped == 0
    {
      this.db, this.batchSize := db, batchSize;
      lastReapTime, lastReapCount, totalReaped := None, 0, 0;
    }

    /** One batch at clock reading `now`. The transactions `among(i)` of other goroutines land between the
        selection, or the last deletion, and the deletion of entry `i`. */
    method ReapBatch(now: Time, f: BatchFaults, among: nat -> seq<MetaOp>) returns (deleted: nat, hasMore: bool)
      requires Valid(db.View())
      modifies db
      ensures Valid(db.View())
      ensures var xs := SelectedEntries(old(db.View()), now, batchSize);
              var n := Reached(f, |xs|);
              && db.View() == BatchState(old(db.View()), xs, n, f, among)
              && deleted == BatchDeleted(old(db.View()), xs, n, f, among)
              && (hasMore <==> HasMore(xs, batchSize, f))
    {
      hide EntriesOf, Selected, EntryKey, StillExpires, Valid, AppliedAll, ReapTx, Coherent;
      ValidIsCoherent(db.View());
      deleted, hasMore := 0, false;
      ghost var db0 := db.View();
      if f.select {
        return;
      }
      var expired := db.GetExpiredEnvelopes(now, batchSize);
      if |expired| == 0 {
        return;
      }
      var hadError := false;
      for i := 0 to |expired|
        invariant Valid(db.View()) && db.View() == BatchState(db0, expired, i, f, among)
        invariant deleted == BatchDeleted(db0, expired, i, f, among)
        invariant i <= Reached(f, |expired|)
        invariant !hadError <==> forall j :: 0 <= j < i ==> EntryKey(expired[j]) !in f.failing
      {
        if f.cancelledAt == Some(i) {
          return deleted, false;
        }
        var entry := expired[i];
        AppliedAllValid(db.View(), among(i));
        Interfere(db, among(i));
        var gone := db.DeleteExpiredEnvelope(entry, EntryKey(entry) in f.failing);
        if EntryKey(entry) in f.failing {
          hadError := true;
        } else if gone {
          deleted := deleted + 1;
        }
      }
      hasMore := !hadError && |expired| == batchSize;
    }

    /** A batch as part of a cycle. */
    method BatchOfCycle(ghost db0: DB, ghost clock: nat -> Time, ghost maxDuration: int, ghost plan: BatchPlan,
                        ghost cancelled: nat -> bool, ghost batches: nat, ghost removed: set<Bytes>,
                        now: Time, f: BatchFaults)
      returns (count: nat, more: bool, ghost next: set<Bytes>)
      requires Valid(db.View()) && db.View() == RemovedAll(db0, removed)
      requires Cycling(db0, clock, maxDuration, batchSize, plan, cancelled, batches, true, removed)
      requires clock(TestReading(batches)) <= clock(0) + maxDuration
      requires now == clock(TestReading(batches) + 1) && f == plan(batches)
      modifies db
      ensures Valid(db.View()) && db.View() == RemovedAll(db0, next)
      ensures Cycling(db0, clock, maxDuration, batchSize, plan, cancelled, batches + 1, more, next)
      ensures |next| == |removed| + count
      ensures more ==> Left(db0.envelopes.Keys, next) < Left(db0.envelopes.Keys, removed)
    {
      hide RemovedAll, Valid, SelectedEntries, Batch, BatchState, BatchDeleted, HasMore, Reached, Cycling;
      CycleStep(db0, clock, maxDuration, batchSize, plan, cancelled, batches, removed);
      next := removed + Batch(db.View(), now, batchSize, f);
      count, more := ReapBatch(now, f, ALONE);
    }

    /** A periodic cycle: batches until one is short, had an error, or the time budget is used up. The
        clock may move in any way; every removed envelope was expired at one of its readings. A cancellation
        noticed between batches ends the cycle without its statistics. When nothing fails and the clock does
        not go back, a cycle with time for `m` batches removes as many of the envelopes expired at its start as
        those hold, and all of them when the time never runs out. */
    method ReapCycle(clock: nat -> Time, maxDuration: int, plan: BatchPlan, cancelled: nat -> bool)
      returns (cycleTotal: nat, interrupted: bool, ghost removed: set<Bytes>, ghost readings: nat)
      requires Valid(db.View())
      modifies db, this
      ensures Valid(db.View()) && db.View() == RemovedAll(old(db.View()), removed)
      ensures Achieves(old(db.View()), clock, maxDuration, batchSize, plan, cancelled, removed)
      ensures cycleTotal == |removed|
      ensures totalReaped == old(totalReaped) + (if interrupted then 0 else cycleTotal)
      ensures !interrupted && cycleTotal > 0 ==> lastReapCount == cycleTotal
      ensures interrupted ==> exists n :: cancelled(n)
      ensures !interrupted && cycleTotal > 0 ==> readings > 1 && lastReapTime == Some(clock(readings))
      ensures interrupted || cycleTotal == 0 ==> unchanged(this)
    {
      hide *;
      NextReading(0);
      ghost var db0 := db.View();
      StartCycle(db0, clock, maxDuration, batchSize, plan, cancelled);
      var deadline := clock(0) + maxDuration;
      var reading := 1;
      var hasMore := true;
      var batches := 0;
      cycleTotal, interrupted, removed, readings := 0, false, {}, 0;
      while hasMore
        invariant Valid(db.View()) && db.View() == RemovedAll(db0, removed) && reading == TestReading(batches)
        invariant Cycling(db0, clock, maxDuration, batchSize, plan, cancelled, batches, hasMore, removed)
        invariant cycleTotal == |removed| && !interrupted
        invariant if batches == 0 then cycleTotal == 0 else reading > 1
        modifies db
        decreases hasMore, Left(db0.envelopes.Keys, removed)
      {
        if clock(reading) > deadline {
          break;
        }
        NextReading(batches);
        var count, more, next :=
          BatchOfCycle(db0, clock, maxDuration, plan, cancelled, batches, removed, clock(reading + 1), plan(batches));
        removed := next;
        cycleTotal := cycleTotal + count;
        hasMore := more;
        reading := reading + 2;
        if hasMore && cancelled(batches) {
          CancelledSomewhere(cancelled, batches);
          CycleResult(db0, clock, maxDuration, batchSize, plan, cancelled, batches + 1, hasMore, removed);
          return cycleTotal, true, removed, readings;
        }
        batches := batches + 1;
      }
      CycleResult(db0, clock, maxDuration, batchSize, plan, cancelled, batches, hasMore, removed);
      if cycleTotal > 0 {
        lastReapTime := Some(clock(reading));
        readings := reading;
        lastReapCount := cycleTotal;
        totalReaped := totalReaped + cycleTotal;
      }
    }

    /** A batch as part of a drain. */
    method BatchOfDrain(ghost db0: DB, ghost removed: set<Bytes>, now: Time, f: BatchFaults)
      returns (count: nat, more: bool, ghost next: set<Bytes>)
      requires Valid(db.View()) && db.View() == RemovedAll(db0, removed) && removed <= ExpiredSet(db0, now)
      modifies db
      ensures Valid(db.View()) && db.View() == RemovedAll(db0, next) && next <= ExpiredSet(db0, now)
      ensures |next| == |removed| + count
      ensures !more && f == NO_BATCH_FAULT && batchSize >= 1 ==> next == ExpiredSet(db0, now)
      ensures more ==> Left(ExpiredSet(db0, now), next) < Left(ExpiredSet(db0, now), removed)
    {
      hide ExpiredSet, RemovedAll, Valid, SelectedEntries, Batch, BatchState, BatchDeleted, HasMore, Reached;
      ghost var batch := Batch(db.View(), now, batchSize, f);
      next := removed + batch;
      DrainBatch(db0, now, batchSize, f, removed);
      count, more := ReapBatch(now, f, ALONE);
    }

    /** A manual cycle: batches until one is short or had an error. */
    method ReapNow(now: Time, plan: BatchPlan) returns (total: nat, ghost removed: set<Bytes>)
      requires Valid(db.View())
      modifies db, this
      ensures Valid(db.View()) && db.View() == RemovedAll(old(db.View()), removed)
      ensures removed <= ExpiredSet(old(db.View()), now) && total == |removed|
      ensures NothingFails(plan) && batchSize >= 1 ==> removed == ExpiredSet(old(db.View()), now)
      ensures NothingFails(plan) && batchSize >= 1 && InRange(old(db.View())) && Representable(now) ==>
                removed == DueSet(old(db.View()), now)
      ensures totalReaped == old(totalReaped) + total
      ensures total > 0 ==> lastReapTime == Some(now) && lastReapCount == total
      ensures total == 0 ==> lastReapTime == old(lastReapTime) && lastReapCount == old(lastReapCount)
    {
      hide *;
      ghost var db0 := db.View();
      RemovedNone(db0);
      ExpiredSetIsDueExactly(db0);
      total, removed := 0, {};
      var hasMore, batches := true, 0;
      while hasMore
        invariant Valid(db.View()) && db.View() == RemovedAll(db0, removed)
        invariant removed <= ExpiredSet(db0, now) && total == |removed|
        invariant !hasMore && NothingFails(plan) && batchSize >= 1 ==> removed == ExpiredSet(db0, now)
        modifies db
        decreases hasMore, Left(ExpiredSet(db0, now), removed)
      {
        var count, more, next := BatchOfDrain(db0, removed, now, plan(batches));
        if NothingFails(plan) { NoFaultAt(plan, batches); }
        removed := next;
        total := total + count;
        hasMore := more;
        batches := batches + 1;
      }
      if total > 0 {
        lastReapTime := Some(now);
        lastReapCount := total;
        totalReaped := totalReaped + total;
      }
    }
  }

  lemma CancelledSomewhere(cancelled: nat -> bool, n: nat)
    requires cancelled(n)
    ensures !Uncancelled(cancelled)
  {
  }

  lemma NoFaultAt(plan: BatchPlan, n: nat)
    requires NothingFails(plan)
    ensures plan(n) == NO_BATCH_FAULT
  {
  }

  /** A budget that no test exceeds ends no cycle. */
  lemma NeverOver(db: DB, clock: nat -> Time, maxDuration: int, limit: int, batches: nat, hasMore: bool,
                  removed: set<Bytes>)
    requires Progress(db, clock, limit, batches, hasMore, removed)
    requires hasMore ==> clock(TestReading(batches)) > clock(0) + maxDuration
    ensures (forall m: nat :: InBudget(clock, maxDuration, m)) ==> ExpiredSet(db, clock(0)) <= removed
  {
    hide ExpiredSet;
    if forall m: nat :: InBudget(clock, maxDuration, m) {
      assert InBudget(clock, maxDuration, batches + 1);
    }
  }

  lemma ExpiredIsStored(db: DB, now: Time)
    ensures ExpiredSet(db, now) <= db.envelopes.Keys
  {
  }

  /** A further disjoint batch is one more part of what was removed. */
  lemma BatchJoins(db: DB, removed: set<Bytes>, batch: set<Bytes>, now: Time)
    requires batch <= ExpiredSet(RemovedAll(db, removed), now)
    ensures batch <= ExpiredSet(db, now) && batch !! removed
    ensures RemovedAll(RemovedAll(db, removed), batch) == RemovedAll(db, removed + batch)
  {
    hide ExpiredSet, RemovedAll;
    ExpiredAfterRemoval(db, removed, now);
    RemovedTwice(db, removed, batch);
  }

  lemma SelectedFacts(db: DB, now: Time, limit: int)
    requires Valid(db)
    ensures var xs := SelectedEntries(db, now, limit);
            && (forall x :: x in xs ==> EntryKey(x) in ExpiredSet(db, now) && StillExpires(db, x))
            && (forall i, j :: 0 <= i < j < |xs| ==> EntryKey(xs[i]) != EntryKey(xs[j]))
            && (|xs| > 0 ==> |xs| <= limit)
            && (|xs| == 0 && limit >= 1 ==> ExpiredSet(db, now) == {})
  {
    hide ExpiredSet, EntryKey, EntriesOf, StillExpires, UnixNano, ExpiryOf;
    var xs := SelectedEntries(db, now, limit);
    EntriesLength(Selected(db.index, now, limit));
    SelectedKeysDistinct(db, now, limit);
    forall i, j | 0 <= i < j < |xs| ensures EntryKey(xs[i]) != EntryKey(xs[j]) {
      assert EntryKeys(xs)[i] != EntryKeys(xs)[j];
    }
    forall x | x in xs ensures EntryKey(x) in ExpiredSet(db, now) && StillExpires(db, x) {
      var i :| 0 <= i < |xs| && xs[i] == x;
      SelectedEntry(db, now, limit, i);
    }
    if limit >= 0 { SelectionIsExact(db, now, limit); }
  }

  lemma ReapedOne(db: DB, removed: set<Bytes>, x: ExpiryEntry)
    requires Valid(db) && Valid(RemovedAll(db, removed)) && EntryKey(x) !in removed && StillExpires(db, x)
    ensures ReapTx(RemovedAll(db, removed), x) == RemovedAll(db, removed + {EntryKey(x)})
  {
    hide Valid, Dropped, RemovedAll, EntryKey, StillExpires;
    StillExpiresAfterRemoval(db, removed, x);
    DroppedIsRemoved(RemovedAll(db, removed), EntryKey(x));
    RemovedTwice(db, removed, {EntryKey(x)});
  }

  /** A short batch without errors has removed everything that was expired. */
  lemma AllSelectedRemoved(db: DB, now: Time, limit: int, removed: set<Bytes>)
    requires Valid(db) && limit >= 1 && removed <= ExpiredSet(db, now)
    requires |SelectedEntries(db, now, limit)| == |removed| && |removed| != limit
    ensures removed == ExpiredSet(db, now)
  {
    hide ExpiredSet, SelectedEntries;
    SelectionIsExact(db, now, limit);
    SubsetOfSize(removed, ExpiredSet(db, now));
  }

  lemma SubsetOfSize(a: set<Bytes>, b: set<Bytes>)
    requires a <= b && |a| == |b|
    ensures a == b
  {
    assert b == a + (b - a);
    assert |b - a| == 0;
  }
}
