/** The content store and the garbage collector as they run, over one backend, database and evictor. */
module Cafs {
  import opened ByteStrings
  import opened Buckets
  import opened Fifo
  import opened Queues
  import opened Blobs
  import opened Envelopes
  import opened MetaDB
  import opened CacheSteps
  import opened S3Fifo
  import opened StoreSteps

  /** The content-addressed store, wired to the evictor as its notifier. */
  class CAFS {
    const backend: Backend
    const metaDB: BoltDB
    const notifier: Manager

    ghost predicate Wired() { notifier.backend == backend && notifier.metaDB == metaDB }

    constructor (notifier: Manager)
      ensures Wired() && this.notifier == notifier
    {
      this.backend, this.metaDB, this.notifier := notifier.backend, notifier.metaDB, notifier;
    }

    /** At every point between these calls a file that is on disk because of this put has its row. */
    method PutWithResult(hash: Hash, size: nat, now: Time, f: PutFaults) returns (result: PutResult)
      requires Wired() && notifier.queues.Valid()
      modifies notifier, notifier.queues, metaDB`blobs, backend
      ensures notifier.queues.Valid()
      ensures (notifier.State(), result) == Put(old(notifier.State()), hash, size, now, f)
      ensures old(backend.files) <= old(metaDB.blobs.Keys) ==> backend.files <= metaDB.blobs.Keys
      ensures result.Existed? <==> !f.lookup && hash in old(backend.files)
      ensures result.Created? <==> !f.lookup && hash !in old(backend.files) && !f.row && !f.write
      ensures result.Created? ==> hash in backend.files && hash in metaDB.blobs
                                  && metaDB.blobs[hash] == BlobEntry(size, now, now, 0, 0)
      ensures result.Existed? && !f.touch && hash in old(metaDB.blobs) ==>
                var a := old(metaDB.blobs)[hash];
                var count := if a.accessCount < 3 then a.accessCount + 1 else a.accessCount;
                metaDB.blobs == old(metaDB.blobs)[hash := BlobEntry(a.size, a.cachedAt, now, a.refCount, count)]
    {
      hide CacheSteps.Admit, Touched, BoltQueues.Valid, BoltQueues.Entries, BoltQueues.Ghosts;
      if f.lookup {
        return PutFailed;
      }
      var present := backend.Exists(hash);
      if present {
        TouchKeeps(metaDB.blobs, hash, now);
        var _, _ := metaDB.TouchBlob(hash, now, f.touch);
        return Existed;
      }
      metaDB.PutBlob(hash, BlobEntry(size, now, now, 0, 0), f.row);
      if f.row {
        return PutFailed;
      }
      assert old(backend.files) <= old(metaDB.blobs.Keys) ==> backend.files <= metaDB.blobs.Keys;
      backend.Write(hash, f.write);
      if f.write {
        metaDB.DeleteBlob(hash, f.rollback);
        return PutFailed;
      }
      assert old(backend.files) <= old(metaDB.blobs.Keys) ==> backend.files <= metaDB.blobs.Keys;
      notifier.Admit(hash, size, f.admit);
      return Created;
    }

    method Delete(hash: Hash, f: DropFaults) returns (ok: bool)
      requires Wired() && notifier.queues.Valid()
      modifies notifier, notifier.queues, metaDB`blobs, backend
      ensures notifier.queues.Valid()
      ensures (notifier.State(), ok) == DeleteContent(old(notifier.State()), hash, f)
      ensures old(backend.files) <= old(metaDB.blobs.Keys) ==> backend.files <= metaDB.blobs.Keys
    {
      hide CacheSteps.Remove, BoltQueues.Valid, BoltQueues.Entries, BoltQueues.Ghosts;
      backend.Delete(hash, f.backend);
      if f.backend {
        return false;
      }
      assert old(backend.files) <= old(metaDB.blobs.Keys) ==> backend.files <= metaDB.blobs.Keys;
      var size := 0;
      var entry := metaDB.GetBlob(hash, f.get);
      if entry.Found? {
        size := entry.entry.size;
      }
      metaDB.DeleteBlob(hash, f.row);
      notifier.Remove(hash, size, f.remove);
      return true;
    }
  }

  lemma TouchKeeps(rows: Rows, h: Hash, now: Time)
    ensures h in rows ==> Touched(rows, h, now).Keys == rows.Keys
  {
  }

  /** The collector, with the evictor's removal as its deletion hook. */
  class Collector {
    const db: BoltDB
    const backend: Backend
    const hook: Manager
    const batchSize: int

    ghost predicate Wired() { hook.backend == backend && hook.metaDB == db }

    constructor (hook: Manager, batchSize: int)
      ensures Wired() && this.hook == hook && this.batchSize == batchSize
    {
      this.db, this.backend, this.hook, this.batchSize := hook.metaDB, hook.backend, hook, batchSize;
    }

    method DeleteBlob(hash: Hash, f: DropFaults) returns (size: Option<nat>)
      requires Wired() && hook.queues.Valid()
      modifies hook, hook.queues, db`blobs, backend
      ensures hook.queues.Valid()
      ensures (hook.State(), size) == CollectBlob(old(hook.State()), hash, f)
    {
      hide CacheSteps.Remove, BoltQueues.Valid, BoltQueues.Entries, BoltQueues.Ghosts;
      var entry := db.GetBlob(hash, f.get);
      if entry.ReadError? {
        return None;
      }
      var bytes := if entry.Found? then entry.entry.size else 0;
      backend.Delete(hash, f.backend);
      if f.backend {
        return None;
      }
      db.DeleteBlob(hash, f.row);
      if f.row {
        return None;
      }
      hook.Remove(hash, bytes, f.remove);
      return Some(bytes);
    }

    /** Deletes the unreferenced blobs past their retention that one query returned. */
    method PhaseDeleteUnreferenced(before: Option<Time>, queryFails: bool, plan: DropPlan) returns (t: Tally)
      requires Wired() && hook.queues.Valid()
      modifies hook, hook.queues, db`blobs, backend
      ensures hook.queues.Valid()
      ensures (hook.State(), t)
           == CollectPhase(old(hook.State()), before, batchSize, queryFails, plan)
    {
      hide CollectBlob, Unreferenced, BoltQueues.Valid, BoltQueues.Entries, BoltQueues.Ghosts;
      if queryFails {
        return Tally(0, 0, 1);
      }
      var hashes := db.GetUnreferencedBlobs(before, batchSize);
      t := Tally(0, 0, 0);
      assert hashes[..0] == [];
      for i := 0 to |hashes|
        invariant hook.queues.Valid()
        invariant (hook.State(), t) == CollectAll(old(hook.State()), hashes[..i], plan)
      {
        assert hashes[..i + 1][..i] == hashes[..i];
        var reclaimed := DeleteBlob(hashes[i], plan(hashes[i]));
        if reclaimed.Some? {
          t := Tally(t.deleted + 1, t.bytes + reclaimed.value, t.errors);
        } else {
          t := t.(errors := t.errors + 1);
        }
      }
      assert hashes[..|hashes|] == hashes;
    }

    /** Deletes files that have no row under either form of key. `size` is what the backend says of a
        file's size, zero when it cannot tell. */
    method PhaseDeleteOrphans(f: SweepFaults, size: Hash -> nat) returns (t: Tally)
      requires Wired()
      modifies backend
      ensures hook.State() == SweepOrphans(old(hook.State()), batchSize, f)
      ensures t == SweepReport(old(hook.State()), batchSize, f, size)
    {
      hide InOrder, Swept, SweepErrors, BoltQueues.Entries, BoltQueues.Ghosts;
      if f.list {
        return Tally(0, 0, 1);
      }
      var keys := InOrder(backend.files);
      InOrderMembers(backend.files);
      t := SweepListing(keys, f, size);
    }

    method SweepListing(keys: seq<Hash>, f: SweepFaults, size: Hash -> nat) returns (t: Tally)
      requires NoDup(keys)
      modifies backend
      ensures var swept := Swept(db.blobs, keys, batchSize, f);
              && backend.files == old(backend.files) - Elems(swept)
              && t == Tally(|swept|, Sum(swept, size), SweepErrors(db.blobs, keys, batchSize, f))
    {
      hide FateOf, PlainDigest, Swept, SweepErrors, Sum;
      ghost var swept: seq<Hash> := [];
      t := Tally(0, 0, 0);
      NothingSummed(size);
      var processed := 0;
      var i := 0;
      assert keys[0..] == keys;
      while i < |keys| && processed < batchSize
        invariant i <= |keys| && processed == t.deleted == |swept| && t.bytes == Sum(swept, size)
        invariant backend.files == old(backend.files) - Elems(swept)
        invariant Swept(db.blobs, keys, batchSize, f) == swept + Swept(db.blobs, keys[i..], batchSize - processed, f)
        invariant SweepErrors(db.blobs, keys, batchSize, f)
               == t.errors + SweepErrors(db.blobs, keys[i..], batchSize - processed, f)
      {
        var hash := keys[i];
        SweepStep(db.blobs, keys, i, batchSize - processed, f);
        LookedUp(db.blobs, hash, f);
        var entry := db.GetBlob(hash, hash in f.unreadable);
        if entry.NotFound? {
          entry := db.GetBlob(PlainDigest(hash), hash in f.unreadablePlain);
        }
        if entry.ReadError? {
          t := t.(errors := t.errors + 1);
        } else if entry.NotFound? {
          backend.Delete(hash, hash in f.undeletable);
          if hash in f.undeletable {
            t := t.(errors := t.errors + 1);
          } else {
            SumPush(swept, hash, size);
            ElemsPush(swept, hash);
            t := Tally(t.deleted + 1, t.bytes + size(hash), t.errors);
            processed := processed + 1;
            swept := swept + [hash];
          }
        }
        i := i + 1;
      }
      NothingSwept(db.blobs, keys[i..], batchSize - processed, f);
      assert swept + [] == swept;
    }
  }

  lemma NothingSummed(size: Hash -> nat)
    ensures Sum([], size) == 0
  {
  }

  lemma NothingSwept(rows: Rows, listing: seq<Hash>, budget: int, f: SweepFaults)
    requires listing == [] || budget <= 0
    ensures Swept(rows, listing, budget, f) == [] && SweepErrors(rows, listing, budget, f) == 0
  {
  }

  /** What the two lookups and the deletion come to. */
  lemma LookedUp(rows: Rows, h: Hash, f: SweepFaults)
    ensures FateOf(rows, h, f)
         == if h in f.unreadable then Uncertain
            else if h in rows then Spared
            else if h in f.unreadablePlain then Uncertain
            else if PlainDigest(h) in rows then Spared
            else if h in f.undeletable then Stuck
            else Deleted
  {
  }
}
