/** The metadata database as it runs: buckets updated in place inside transactions. */
module MetaDB {
  import opened ByteStrings
  import opened Buckets
  import opened Fifo
  import opened Blobs
  import opened Envelopes
  import opened MetaState

  datatype Lookup = Found(entry: BlobEntry) | NotFound | ReadError

  datatype Option<T> = None | Some(value: T)

  // ---- What the read transactions select ----

  /** The eight bytes of encoded time at the front of a forward index key. */
  function TimeOf(f: Bytes): Bytes { if |f| >= 8 then f[..8] else f }

  function ExpiredKeys(ix: Index, before: Time): set<Bytes> {
    set f | f in ix.byExpiry && Less(TimeOf(f), EncodeTimestamp(before))
  }

  function AtMost<T>(q: seq<T>, limit: int): seq<T> {
    if limit <= 0 then [] else if |q| <= limit then q else q[..limit]
  }

  /** The earliest expired index keys, at most `limit` of them. */
  function Selected(ix: Index, before: Time, limit: int): seq<Bytes> {
    AtMost(SortedKeys(ExpiredKeys(ix, before)), limit)
  }

  function EntryOf(f: Bytes): ExpiryEntry {
    ExpiryEntry(ParsedKey(if |f| >= 8 then f[8..] else []), DecodeTimestamp(TimeOf(f)))
  }

  function EntriesOf(fs: seq<Bytes>): seq<ExpiryEntry> {
    seq(|fs|, i requires 0 <= i < |fs| => EntryOf(fs[i]))
  }

  /** No references, and last seen at or before the cutoff when there is one. */
  predicate Collectable(e: BlobEntry, before: Option<Time>) {
    && e.refCount == 0
    && (before.Some? ==>
          (if e.lastAccess > e.cachedAt then e.lastAccess else e.cachedAt) <= before.value)
  }

  function Collectables(rows: Rows, before: Option<Time>, q: seq<Hash>): seq<Hash> {
    if q == [] then []
    else
      var h := q[|q| - 1];
      Collectables(rows, before, q[..|q| - 1]) + (if h in rows && Collectable(rows[h], before) then [h] else [])
  }

  function Unreferenced(rows: Rows, before: Option<Time>, limit: int): seq<Hash> {
    Limited(Collectables(rows, before, InOrder(rows.Keys)), limit)
  }

  /** A limit of zero or less is no limit. */
  function Limited<T>(q: seq<T>, limit: int): seq<T> {
    if 0 < limit < |q| then q[..limit] else q
  }

  lemma CollectOneMore(rows: Rows, before: Option<Time>, q: seq<Hash>, i: nat, limit: int)
    requires i < |q| && q[i] in rows
    ensures var had := Limited(Collectables(rows, before, q[..i]), limit);
            Limited(Collectables(rows, before, q[..i + 1]), limit)
            == if !(limit > 0 && |had| >= limit) && Collectable(rows[q[i]], before) then had + [q[i]] else had
  {
    assert q[..i + 1][..i] == q[..i];
    assert q[..i + 1][i] == q[i];
    var all := Collectables(rows, before, q[..i]);
    if Collectable(rows[q[i]], before) {
      assert Collectables(rows, before, q[..i + 1]) == all + [q[i]];
    } else {
      assert Collectables(rows, before, q[..i + 1]) == all;
    }
  }

  lemma NothingCollected(rows: Rows, before: Option<Time>, limit: int)
    ensures Limited(Collectables(rows, before, []), limit) == []
  {
  }

  lemma {:induction false} CollectablesMembers(rows: Rows, before: Option<Time>, q: seq<Hash>)
    ensures forall h :: h in Collectables(rows, before, q) <==> h in q && h in rows && Collectable(rows[h], before)
    ensures NoDup(q) ==> NoDup(Collectables(rows, before, q))
  {
    if q != [] {
      CollectablesMembers(rows, before, q[..|q| - 1]);
      assert q == q[..|q| - 1] + [q[|q| - 1]];
      if NoDup(q) { LastIsNew(q); }
    }
  }

  /** Only unreferenced blobs past their retention are selected, each once; all of them when fewer than
      `limit` are returned or there is no limit. */
  lemma UnreferencedMembers(rows: Rows, before: Option<Time>, limit: int)
    ensures forall h :: h in Unreferenced(rows, before, limit) ==>
              h in rows && rows[h].refCount == 0
              && (before.Some? ==> rows[h].lastAccess <= before.value && rows[h].cachedAt <= before.value)
    ensures forall h :: h in Unreferenced(rows, before, limit) ==> h in rows && Collectable(rows[h], before)
    ensures NoDup(Unreferenced(rows, before, limit))
    ensures limit <= 0 || |Unreferenced(rows, before, limit)| < limit ==>
              forall h :: h in rows && Collectable(rows[h], before) ==> h in Unreferenced(rows, before, limit)
  {
    InOrderMembers(rows.Keys);
    CollectablesMembers(rows, before, InOrder(rows.Keys));
  }

  /** The expired keys are the first keys of the forward bucket, so the scan may stop at the first that
      is not expired. */
  lemma ExpiredPrefix(ix: Index, before: Time) returns (n: nat)
    requires forall f :: f in ix.byExpiry ==> |f| >= 8
    ensures var keys := SortedKeys(ix.byExpiry.Keys);
            && n <= |keys| && keys[..n] == SortedKeys(ExpiredKeys(ix, before))
            && forall i :: 0 <= i < |keys| ==> (i < n <==> Less(TimeOf(keys[i]), EncodeTimestamp(before)))
  {
    hide EncodeTimestamp, TimeOf, Less, SortedKeys;
    var keys, b := SortedKeys(ix.byExpiry.Keys), EncodeTimestamp(before);
    n := 0;
    while n < |keys| && Less(TimeOf(keys[n]), b)
      invariant n <= |keys| && forall i :: 0 <= i < n ==> Less(TimeOf(keys[i]), b)
    {
      n := n + 1;
    }
    forall i | n <= i < |keys| ensures !Less(TimeOf(keys[i]), b) {
      if i > n { LaterNotExpired(keys[n], keys[i], b); }
    }
    forall f ensures f in keys[..n] <==> f in ExpiredKeys(ix, before) {
      if f in ExpiredKeys(ix, before) {
        assert f in keys;
        var i :| 0 <= i < |keys| && keys[i] == f;
        assert keys[..n][i] == f;
      }
    }
    IncreasingPrefix(keys, n);
    IncreasingUnique(keys[..n], SortedKeys(ExpiredKeys(ix, before)));
  }

  lemma IncreasingPrefix(q: seq<Bytes>, n: nat)
    requires Increasing(q) && n <= |q|
    ensures Increasing(q[..n])
  {
  }

  lemma LaterNotExpired(f: Bytes, g: Bytes, b: Bytes)
    requires |f| >= 8 && |g| >= 8 && Less(f, g) && !Less(TimeOf(f), b)
    ensures !Less(TimeOf(g), b)
  {
    LessTotal(TimeOf(f), b);
    if Less(TimeOf(g), b) {
      if Less(b, TimeOf(f)) { LessTransitive(TimeOf(g), b, TimeOf(f)); }
      LessPrefix(g, f, 8);
      LessAsymmetric(g, f);
    }
  }

  // ---- Keys under one prefix ----

  function WithPrefix(envelopes: map<Bytes, Envelope>, prefix: Bytes): set<Bytes> {
    set k | k in envelopes && prefix <= k
  }

  function KeyPartsOf(ks: seq<Bytes>): seq<Bytes> {
    seq(|ks|, i requires 0 <= i < |ks| => ParsedKey(ks[i]).key)
  }

  /** No key without the prefix stands between the prefix and a key that has it. */
  lemma {:induction false} PrefixIsContiguous(p: Bytes, x: Bytes, y: Bytes)
    requires !Less(x, p) && p <= y && Less(x, y)
    ensures p <= x
  {
    if p != [] {
      assert x != [] && y != [] && y[0] == p[0];
      assert x[0] == p[0];
      assert p[1..] <= y[1..];
      PrefixIsContiguous(p[1..], x[1..], y[1..]);
      assert x == [x[0]] + x[1..] && p == [p[0]] + p[1..];
    }
  }

  lemma {:induction false} NotLessThanPrefix(p: Bytes, x: Bytes)
    requires p <= x
    ensures !Less(x, p)
  {
    if p != [] { NotLessThanPrefix(p[1..], x[1..]); }
  }

  lemma KeyPartsEmpty(ks: seq<Bytes>, start: nat)
    requires start <= |ks|
    ensures KeyPartsOf(ks[start..start]) == []
  {
  }

  lemma KeyPartsOneMore(ks: seq<Bytes>, start: nat, i: nat)
    requires start <= i < |ks|
    ensures KeyPartsOf(ks[start..i + 1]) == KeyPartsOf(ks[start..i]) + [ParsedKey(ks[i]).key]
  {
    hide ParsedKey;
    assert ks[start..i + 1] == ks[start..i] + [ks[i]];
  }

  /** The keys a prefix scan visits are exactly the stored keys with the prefix, in order. */
  lemma PrefixRange(envelopes: map<Bytes, Envelope>, cursor: seq<Bytes>, prefix: Bytes, start: nat, end: nat)
    requires cursor == SortedKeys(envelopes.Keys) && start <= end <= |cursor|
    requires forall j :: 0 <= j < start ==> Less(cursor[j], prefix)
    requires start < |cursor| ==> !Less(cursor[start], prefix)
    requires forall j :: start <= j < end ==> prefix <= cursor[j]
    requires end < |cursor| ==> !(prefix <= cursor[end])
    ensures cursor[start..end] == SortedKeys(WithPrefix(envelopes, prefix))
  {
    hide Less, SortedKeys;
    var range := cursor[start..end];
    forall k | k in WithPrefix(envelopes, prefix) ensures k in range {
      assert k in cursor;
      var j :| 0 <= j < |cursor| && cursor[j] == k;
      NotLessThanPrefix(prefix, k);
      assert start <= j;
      if end < j {
        NotLessUpwards(prefix, cursor[start], cursor[end]);
        PrefixIsContiguous(prefix, cursor[end], cursor[j]);
      }
      assert j < end;
      assert range[j - start] == k;
    }
    forall k | k in range ensures k in WithPrefix(envelopes, prefix) {
      var j :| 0 <= j < |range| && range[j] == k;
      assert cursor[start + j] == k;
      assert k in cursor;
    }
    IncreasingSlice(cursor, start, end);
    IncreasingUnique(range, SortedKeys(WithPrefix(envelopes, prefix)));
  }

  lemma IncreasingSlice(q: seq<Bytes>, m: nat, n: nat)
    requires Increasing(q) && m <= n <= |q|
    ensures Increasing(q[m..n])
  {
  }

  lemma NoEntries(fs: seq<Bytes>)
    ensures EntriesOf(fs[..0]) == []
  {
  }

  lemma ForwardKeysAreLong(ix: Index)
    requires Coherent(ix)
    ensures forall f :: f in ix.byExpiry ==> |f| >= 8
  {
  }

  /** A scan of the expired prefix that stopped at the limit or at its end has read the selection. */
  lemma ScanSelects(ix: Index, before: Time, limit: int, n: nat, i: nat)
    requires n <= |SortedKeys(ix.byExpiry.Keys)|
    requires SortedKeys(ix.byExpiry.Keys)[..n] == SortedKeys(ExpiredKeys(ix, before))
    requires i <= n && (i <= limit || i == 0) && (i == n || i >= limit)
    ensures Selected(ix, before, limit) == SortedKeys(ix.byExpiry.Keys)[..i]
  {
    hide SortedKeys, ExpiredKeys;
    var cursor := SortedKeys(ix.byExpiry.Keys);
    assert cursor[..n][..i] == cursor[..i];
  }

  lemma EntriesOneMore(fs: seq<Bytes>, i: nat)
    requires i < |fs|
    ensures EntriesOf(fs[..i + 1]) == EntriesOf(fs[..i]) + [EntryOf(fs[i])]
  {
    hide EntryOf;
    assert fs[..i + 1] == fs[..i] + [fs[i]];
  }

  class BoltDB {
    var envelopes: map<Bytes, Envelope>
    var refs: map<Bytes, seq<Hash>>
    var byExpiry: map<Bytes, Bytes>
    var expiryByKey: map<Bytes, Bytes>
    var blobs: Rows

    function View(): DB reads this { DB(envelopes, refs, Index(byExpiry, expiryByKey), blobs) }

    constructor ()
      ensures View() == DB(map[], map[], Index(map[], map[]), map[]) && Valid(View())
    {
      envelopes, refs, byExpiry, expiryByKey, blobs := map[], map[], map[], map[], map[];
    }

    // ---- Blob rows; `fails` rolls the transaction back ----

    method GetBlob(h: Hash, fails: bool) returns (r: Lookup)
      ensures r == if fails then ReadError else if h in blobs then Found(blobs[h]) else NotFound
    {
      if fails { return ReadError; }
      if h !in blobs { return NotFound; }
      return Found(blobs[h]);
    }

    method PutBlob(h: Hash, entry: BlobEntry, fails: bool)
      modifies this`blobs
      ensures blobs == if fails then old(blobs) else old(blobs)[h := entry]
    {
      if !fails { blobs := blobs[h := entry]; }
    }

    method DeleteBlob(h: Hash, fails: bool)
      modifies this`blobs
      ensures blobs == if fails then old(blobs) else old(blobs) - {h}
    {
      if !fails { blobs := blobs - {h}; }
    }

    method TouchBlob(h: Hash, now: Time, fails: bool) returns (newCount: nat, found: bool)
      modifies this`blobs
      ensures found == (!fails && h in old(blobs))
      ensures blobs == if found then Touched(old(blobs), h, now) else old(blobs)
      ensures found ==>
                var a := old(blobs)[h];
                blobs == old(blobs)[h := BlobEntry(a.size, a.cachedAt, now, a.refCount, newCount)]
                && newCount == if a.accessCount < 3 then a.accessCount + 1 else a.accessCount
      ensures newCount == if found then blobs[h].accessCount else 0
      ensures found ==> 1 <= newCount
    {
      newCount, found := 0, false;
      if !fails && h in blobs {
        found := true;
        var entry := blobs[h].(lastAccess := now);
        if entry.accessCount < MAX_ACCESS {
          entry := entry.(accessCount := entry.accessCount + 1);
        }
        newCount := entry.accessCount;
        blobs := blobs[h := entry];
      }
    }

    method GetUnreferencedBlobs(before: Option<Time>, limit: int) returns (hashes: seq<Hash>)
      ensures hashes == Unreferenced(blobs, before, limit)
      ensures forall h :: h in hashes ==>
                h in blobs && blobs[h].refCount == 0
                && (before.Some? ==> blobs[h].lastAccess <= before.value && blobs[h].cachedAt <= before.value)
    {
      UnreferencedMembers(blobs, before, limit);
      hide InOrder, Collectables, Limited;
      var keys := InOrder(blobs.Keys);
      InOrderMembers(blobs.Keys);
      assert keys[..0] == [];
      NothingCollected(blobs, before, limit);
      hashes := [];
      for i := 0 to |keys|
        invariant hashes == Limited(Collectables(blobs, before, keys[..i]), limit)
      {
        CollectOneMore(blobs, before, keys, i, limit);
        if !(limit > 0 && |hashes| >= limit) {
          var entry := blobs[keys[i]];
          if entry.refCount == 0 {
            var lastSeen := if entry.lastAccess > entry.cachedAt then entry.lastAccess else entry.cachedAt;
            if !(before.Some? && lastSeen > before.value) {
              hashes := hashes + [keys[i]];
            }
          }
        }
      }
      assert keys[..|keys|] == keys;
    }

    // ---- Reference counts inside a transaction ----

    method IncrementBlobRefInTx(h: Hash)
      modifies this`blobs
      ensures blobs == if h in old(blobs) then WithCount(old(blobs), h, old(blobs)[h].refCount + 1) else old(blobs)
    {
      if h !in blobs { return; }
      blobs := blobs[h := blobs[h].(refCount := blobs[h].refCount + 1)];
    }

    method DecrementBlobRefInTx(h: Hash)
      modifies this`blobs
      ensures blobs
           == if h in old(blobs) then WithCount(old(blobs), h, Monus(old(blobs)[h].refCount, 1)) else old(blobs)
    {
      if h !in blobs { return; }
      var entry := blobs[h];
      if entry.refCount > 0 {
        entry := entry.(refCount := entry.refCount - 1);
      }
      blobs := blobs[h := entry];
    }

    method IncrementAll(hs: seq<Hash>)
      requires NoDup(hs)
      modifies this`blobs
      ensures blobs == Increased(old(blobs), hs)
    {
      assert blobs == Increased(old(blobs), hs[..0]);
      for i := 0 to |hs|
        invariant blobs == Increased(old(blobs), hs[..i])
      {
        IncreasedOneMore(old(blobs), hs, i);
        IncrementBlobRefInTx(hs[i]);
      }
      assert hs[..|hs|] == hs;
    }

    method DecrementAll(hs: seq<Hash>)
      requires NoDup(hs)
      modifies this`blobs
      ensures blobs == Decreased(old(blobs), hs)
    {
      assert blobs == Decreased(old(blobs), hs[..0]);
      for i := 0 to |hs|
        invariant blobs == Decreased(old(blobs), hs[..i])
      {
        DecreasedOneMore(old(blobs), hs, i);
        DecrementBlobRefInTx(hs[i]);
      }
      assert hs[..|hs|] == hs;
    }

    // ---- The expiry index inside a transaction ----

    method UpdateEnvelopeExpiryIndex(p: KeyParts, expiresAtUnixMs: int)
      requires Coherent(Index(byExpiry, expiryByKey))
      modifies this`byExpiry, this`expiryByKey
      ensures Index(byExpiry, expiryByKey)
           == Reindexed(old(Index(byExpiry, expiryByKey)), EnvelopeKey(p.protocol, p.kind, p.key), expiresAtUnixMs)
    {
      var compoundKey := EnvelopeKey(p.protocol, p.kind, p.key);
      if compoundKey in expiryByKey {
        var oldExpiresAt := DecodeTimestamp(expiryByKey[compoundKey]);
        var expiryKey := EnvelopeExpiryKey(oldExpiresAt, p.protocol, p.kind, p.key);
        RebuiltForwardKey(expiryByKey[compoundKey], p.protocol, p.kind, p.key);
        byExpiry := byExpiry - {expiryKey};
        expiryByKey := expiryByKey - {compoundKey};
      }
      if expiresAtUnixMs > 0 {
        var expiresAt := UnixMilli(expiresAtUnixMs);
        var expiryKey := EnvelopeExpiryKey(expiresAt, p.protocol, p.kind, p.key);
        byExpiry := byExpiry[expiryKey := compoundKey];
        expiryByKey := expiryByKey[compoundKey := EncodeTimestamp(expiresAt)];
      }
    }

    // ---- Envelopes ----

    /** The part that storing shares between put and update. */
    method StoreInTx(p: KeyParts, env: Envelope)
      requires Valid(View()) && NoDup(env.blobRefs)
      modifies this
      ensures View() == Stored(old(View()), EnvelopeKey(p.protocol, p.kind, p.key), env)
    {
      var compoundKey := EnvelopeKey(p.protocol, p.kind, p.key);
      var oldRefs := if compoundKey in refs then refs[compoundKey] else [];
      var added, removed := DiffRefs(oldRefs, env.blobRefs);
      MinusMembers(env.blobRefs, oldRefs);
      MinusMembers(oldRefs, env.blobRefs);
      IncrementAll(added);
      DecrementAll(removed);
      refs := refs[compoundKey := env.blobRefs];
      envelopes := envelopes[compoundKey := env];
      UpdateEnvelopeExpiryIndex(p, env.expiresAtUnixMs);
    }

    method DeleteInTx(p: KeyParts)
      requires Valid(View())
      modifies this
      ensures View() == Dropped(old(View()), EnvelopeKey(p.protocol, p.kind, p.key))
    {
      var compoundKey := EnvelopeKey(p.protocol, p.kind, p.key);
      DecrementAll(if compoundKey in refs then refs[compoundKey] else []);
      refs := refs - {compoundKey};
      UpdateEnvelopeExpiryIndex(p, 0);
      envelopes := envelopes - {compoundKey};
    }

    method PutEnvelope(p: KeyParts, env: Envelope) returns (ok: bool)
      requires Valid(View())
      modifies this
      ensures ok <==> ValidEnvelope(env)
      ensures View() == PutEnvelopeTx(old(View()), EnvelopeKey(p.protocol, p.kind, p.key), env) && Valid(View())
      ensures if ok then PutDone(old(View()), View(), EnvelopeKey(p.protocol, p.kind, p.key), env)
              else View() == old(View())
    {
      hide PutDone, EnvelopeKey, Coherent, IndexMatches, Mirrored, Stored;
      PutOutcome(View(), EnvelopeKey(p.protocol, p.kind, p.key), env);
      KeyHasTwoNuls(p.protocol, p.kind, p.key);
      PutEnvelopeValid(View(), EnvelopeKey(p.protocol, p.kind, p.key), env);
      ok := ValidateEnvelope(env);
      if ok {
        var canonical := CanonicalizeRefs(env.blobRefs);
        CanonicalMembers(env.blobRefs);
        StoreInTx(p, env.(blobRefs := canonical));
      }
    }

    method DeleteEnvelope(p: KeyParts)
      requires Valid(View())
      modifies this
      ensures View() == Dropped(old(View()), EnvelopeKey(p.protocol, p.kind, p.key)) && Valid(View())
      ensures DropDone(old(View()), View(), EnvelopeKey(p.protocol, p.kind, p.key))
    {
      hide DropDone, EnvelopeKey, Coherent, IndexMatches, Mirrored, Dropped;
      DropOutcome(View(), EnvelopeKey(p.protocol, p.kind, p.key));
      DroppedValid(View(), EnvelopeKey(p.protocol, p.kind, p.key));
      DeleteInTx(p);
    }

    /** Read, modify, write in one transaction: the callback sees the stored envelope, if any. */
    method UpdateEnvelope(p: KeyParts, fn: Option<Envelope> -> Update) returns (ok: bool)
      requires Valid(View())
      modifies this
      ensures var k := EnvelopeKey(p.protocol, p.kind, p.key);
              var u := fn(if k in old(envelopes) then Some(old(envelopes)[k]) else None);
              && View() == UpdateTx(old(View()), k, u) && Valid(View())
              && (ok <==> u.Delete? || (u.Replace? && ValidEnvelope(u.envelope)))
              && (!ok ==> View() == old(View()))
              && (ok && u.Delete? ==> DropDone(old(View()), View(), k))
              && (ok && u.Replace? ==> PutDone(old(View()), View(), k, u.envelope))
    {
      hide PutDone, DropDone, EnvelopeKey, Coherent, IndexMatches, Mirrored, Stored, Dropped;
      var compoundKey := EnvelopeKey(p.protocol, p.kind, p.key);
      var existing := if compoundKey in envelopes then Some(envelopes[compoundKey]) else None;
      var newEnv := fn(existing);
      KeyHasTwoNuls(p.protocol, p.kind, p.key);
      UpdateValid(View(), compoundKey, newEnv);
      UpdateOutcome(View(), compoundKey, newEnv);
      match newEnv {
        case Abort =>
          ok := false;
        case Delete =>
          DeleteInTx(p);
          ok := true;
        case Replace(env) =>
          ok := ValidateEnvelope(env);
          if ok {
            var canonical := CanonicalizeRefs(env.blobRefs);
            CanonicalMembers(env.blobRefs);
            StoreInTx(p, env.(blobRefs := canonical));
          }
      }
    }

    /** Returns the key parts stored under a protocol and kind, by a prefix scan. */
    method ListEnvelopeKeys(protocol: Bytes, kind: Bytes) returns (keys: seq<Bytes>)
      ensures keys == KeyPartsOf(SortedKeys(WithPrefix(envelopes, EnvelopeKey(protocol, kind, []))))
    {
      hide EnvelopeKey, ParsedKey, Less, SortedKeys, WithPrefix, KeyPartsOf;
      var prefix := EnvelopeKey(protocol, kind, []);
      var cursor := SortedKeys(envelopes.Keys);
      var i := 0;
      while i < |cursor| && Less(cursor[i], prefix)
        invariant i <= |cursor| && forall j :: 0 <= j < i ==> Less(cursor[j], prefix)
      {
        i := i + 1;
      }
      ghost var start := i;
      keys := [];
      KeyPartsEmpty(cursor, start);
      while i < |cursor| && prefix <= cursor[i]
        invariant start <= i <= |cursor|
        invariant forall j :: start <= j < i ==> prefix <= cursor[j]
        invariant keys == KeyPartsOf(cursor[start..i])
      {
        KeyPartsOneMore(cursor, start, i);
        keys := keys + [ParsedKey(cursor[i]).key];
        i := i + 1;
      }
      PrefixRange(envelopes, cursor, prefix, start, i);
    }

    // ---- Expiry ----

    /** The scan stops at the limit or at the first key at or past the cutoff. */
    method GetExpiredEnvelopes(before: Time, limit: int) returns (entries: seq<ExpiryEntry>)
      requires Coherent(Index(byExpiry, expiryByKey))
      ensures entries == EntriesOf(Selected(Index(byExpiry, expiryByKey), before, limit))
    {
      hide EncodeTimestamp, TimeOf, EntryOf, EntriesOf, Less, SortedKeys, ExpiredKeys, Selected, Coherent;
      var beforeBytes := EncodeTimestamp(before);
      var cursor := SortedKeys(byExpiry.Keys);
      ForwardKeysAreLong(Index(byExpiry, expiryByKey));
      ghost var n := ExpiredPrefix(Index(byExpiry, expiryByKey), before);
      entries := [];
      var i := 0;
      NoEntries(cursor);
      while i < |cursor| && |entries| < limit
        invariant i <= n && |entries| == i
        invariant i <= limit || i == 0
        invariant entries == EntriesOf(cursor[..i])
      {
        if !Less(TimeOf(cursor[i]), beforeBytes) {
          break;
        }
        EntriesOneMore(cursor, i);
        entries := entries + [EntryOf(cursor[i])];
        i := i + 1;
      }
      ScanSelects(Index(byExpiry, expiryByKey), before, limit, n, i);
    }

    /** Deletes only while the reverse index still matches the reaper's snapshot. */
    method DeleteExpiredEnvelope(x: ExpiryEntry, fails: bool) returns (deleted: bool)
      requires Valid(View())
      modifies this
      ensures deleted == (!fails && StillExpires(old(View()), x))
      ensures View() == if fails then old(View()) else ReapTx(old(View()), x)
      ensures Valid(View())
    {
      hide EncodeTimestamp, EnvelopeKey, Decreased, NoDup, Coherent, HasTwoNuls;
      ReapValid(View(), x);
      var compoundKey := EntryKey(x);
      var expectedExpiry := EncodeTimestamp(x.expiresAt);
      if fails || compoundKey !in expiryByKey || expiryByKey[compoundKey] != expectedExpiry {
        return false;
      }
      DecrementAll(if compoundKey in refs then refs[compoundKey] else []);
      refs := refs - {compoundKey};
      var expiryKey := EnvelopeExpiryKey(x.expiresAt, x.parts.protocol, x.parts.kind, x.parts.key);
      byExpiry := byExpiry - {expiryKey};
      expiryByKey := expiryByKey - {compoundKey};
      envelopes := envelopes - {compoundKey};
      return true;
    }
  }

  lemma NotLessUpwards(p: Bytes, a: Bytes, b: Bytes)
    requires !Less(a, p) && (a == b || Less(a, b))
    ensures !Less(b, p)
  {
    if Less(b, p) && a != b { LessTransitive(a, b, p); }
  }

  /** For a NUL-free protocol and kind the listing is exactly the keys stored under them, whatever other
      keys are stored. */
  lemma ListingIsExact(db: DB, protocol: Bytes, kind: Bytes, key: Bytes)
    requires Valid(db) && NulFree(protocol) && NulFree(kind)
    ensures key in KeyPartsOf(SortedKeys(WithPrefix(db.envelopes, EnvelopeKey(protocol, kind, []))))
        <==> EnvelopeKey(protocol, kind, key) in db.envelopes
  {
    hide EnvelopeKey, ParsedKey, HasTwoNuls;
    var ks := SortedKeys(WithPrefix(db.envelopes, EnvelopeKey(protocol, kind, [])));
    var parts := KeyPartsOf(ks);
    if key in parts {
      var i :| 0 <= i < |parts| && parts[i] == key;
      assert ks[i] in WithPrefix(db.envelopes, EnvelopeKey(protocol, kind, []));
      PrefixMeansParts(protocol, kind, ks[i]);
      BuildParsed(ks[i]);
    }
    var k := EnvelopeKey(protocol, kind, key);
    if k in db.envelopes {
      ParseBuilt(protocol, kind, key);
      PrefixMeansParts(protocol, kind, k);
      assert k in ks;
      var i :| 0 <= i < |ks| && ks[i] == k;
      assert parts[i] == key;
    }
  }
}
