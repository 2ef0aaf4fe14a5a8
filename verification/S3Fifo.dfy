/** The eviction manager as it runs: queues and database updated transaction by transaction, counters in
    memory, candidates popped under the lock and deleted outside it. */
module S3Fifo {
  import opened ByteStrings
  import opened Fifo
  import opened Queues
  import opened MetaDB
  import opened CacheSteps
  import opened Drain

  /** Blob files, one for each hash. */
  class Backend {
    var files: set<Hash>

    constructor () ensures files == {} { files := {}; }

    method Exists(h: Hash) returns (found: bool)
      ensures found <==> h in files
    {
      found := h in files;
    }

    /** A write that fails leaves no file. */
    method Write(h: Hash, fails: bool)
      modifies this
      ensures files == if fails then old(files) else old(files) + {h}
    {
      if !fails { files := files + {h}; }
    }

    /** Deleting a missing file is no error. */
    method Delete(h: Hash, fails: bool)
      modifies this
      ensures files == if fails then old(files) else old(files) - {h}
    {
      if !fails { files := files - {h}; }
    }
  }

  /** The configuration a manager is built with: a size limit must be positive, the share of the small
      queue defaults to ten percent and may not exceed a hundred. */
  function NormalizedConfig(maxSize: int, smallPercent: int, ghostMaxEntries: int): (r: Option<Config>)
    ensures r.Some? <==> maxSize > 0 && smallPercent <= 100
    ensures r.Some? ==> Normal(r.value) && SmallTarget(r.value) <= r.value.maxSize
    ensures r.Some? ==> r.value.maxSize == maxSize && (1 <= smallPercent ==> r.value.smallPercent == smallPercent)
    ensures r.Some? ==> (smallPercent <= 0 ==> r.value.smallPercent == 10)
    ensures r.Some? ==> (ghostMaxEntries > 0 ==> r.value.ghostMaxEntries == ghostMaxEntries)
    ensures r.Some? ==> (ghostMaxEntries <= 0 ==> r.value.ghostMaxEntries == 0)
  {
    if maxSize <= 0 then None
    else
      var percent := if smallPercent <= 0 then DEFAULT_SMALL_PERCENT else smallPercent;
      if percent > 100 then None
      else
        var cfg := Config(maxSize, percent, if ghostMaxEntries < 0 then 0 else ghostMaxEntries);
        TargetBelowMax(cfg);
        Some(cfg)
  }

  function DecisionOf(skipped: bool, pending: Option<Pending>, err: bool): Decision {
    if err then Failed else if skipped then Skipped else if pending.Some? then Evicting(pending.value) else Acted
  }

  function ScanDecision(acted: bool, pending: Option<Pending>, err: bool): Decision {
    if err then Failed else if !acted then Idle else if pending.Some? then Evicting(pending.value) else Acted
  }

  class Manager {
    const cfg: Config
    const queues: BoltQueues
    const metaDB: BoltDB
    const backend: Backend
    var smallBytes: int
    var mainBytes: int
    var smallLen: int
    var mainLen: int
    var ghostLen: int
    /** The one-slot channel that wakes the background goroutine. */
    var signalled: bool

    function State(): Cache
      reads this, queues, metaDB, backend
    {
      Cache(queues.Entries(Small), queues.Entries(Main), queues.Ghosts(),
            smallBytes, mainBytes, smallLen, mainLen, ghostLen, metaDB.blobs, backend.files)
    }

    /** Recomputes the counters from the persisted queues and the rows, and schedules a run when the
        persisted state is over the limit. */
    constructor (cfg: Config, queues: BoltQueues, metaDB: BoltDB, backend: Backend, unreadable: set<Hash>)
      requires Normal(cfg) && queues.Valid()
      ensures this.cfg == cfg && this.queues == queues && this.metaDB == metaDB && this.backend == backend
      ensures State() == Recomputed(State(), unreadable) && signalled == Over(cfg, State())
    {
      this.cfg, this.queues, this.metaDB, this.backend := cfg, queues, metaDB, backend;
      smallBytes, mainBytes, smallLen, mainLen, ghostLen, signalled := 0, 0, 0, 0, 0, false;
      new;
      RecomputeState(unreadable);
      signalled := smallBytes + mainBytes > cfg.maxSize;
    }

    method RecomputeState(unreadable: set<Hash>)
      requires queues.Valid()
      modifies this
      ensures State() == Recomputed(old(State()), unreadable) && signalled == old(signalled)
    {
      hide Sum, SizeIn, Order, Inverse, BoltQueues.Entries, BoltQueues.Ghosts, BoltQueues.Valid;
      smallBytes, smallLen := SumQueue(Small, unreadable);
      mainBytes, mainLen := SumQueue(Main, unreadable);
      ghostLen := |queues.Ghosts()|;
    }

    /** Adds up a queue's sizes; an entry without a readable row counts but has no size. */
    method SumQueue(queue: QueueName, unreadable: set<Hash>) returns (bytes: int, count: int)
      requires queues.Valid()
      ensures bytes == Sum(queues.Entries(queue), SizeIn(metaDB.blobs - unreadable)) && count == |queues.Entries(queue)|
    {
      var q := queues.Entries(queue);
      bytes, count := 0, 0;
      for i := 0 to |q|
        invariant count == i && bytes == Sum(q[..i], SizeIn(metaDB.blobs - unreadable))
      {
        assert q[..i + 1] == q[..i] + [q[i]];
        SumPush(q[..i], q[i], SizeIn(metaDB.blobs - unreadable));
        count := count + 1;
        var entry := metaDB.GetBlob(q[i], q[i] in unreadable);
        if entry.Found? {
          bytes := bytes + entry.entry.size;
        }
      }
      assert q[..|q|] == q;
    }

    /** Called after a new blob is written. */
    method Admit(hash: Hash, size: nat, f: AdmitFaults)
      requires queues.Valid()
      modifies this, queues
      ensures queues.Valid() && State() == CacheSteps.Admit(old(State()), hash, size, f)
      ensures var a := AdmitWrite(old(State()), hash, !f.ghostRead && hash in old(State()).ghosts, f.write).1;
              signalled == (old(signalled) || ((a.ToSmall? || a.ToMain?) && Over(cfg, State())))
    {
      hide Order, Push, Without, Newest, Inverse, BoltQueues.Entries, BoltQueues.Ghosts, BoltQueues.Valid;
      var inGhost := queues.GhostContains(hash);
      if f.ghostRead {
        inGhost := false;
      }
      var queue, admitted := Small, false;
      if inGhost {
        var ghostAdmitted := queues.AdmitGhostHit(hash, f.write);
        if f.write {
          return;
        }
        if ghostAdmitted {
          queue, admitted := Main, true;
        }
      } else {
        var replaced := queues.PushHead(Small, hash, f.write);
        if f.write {
          return;
        }
        admitted := !replaced;
      }
      if admitted {
        if queue == Main {
          mainBytes, mainLen := mainBytes + size, mainLen + 1;
          ghostLen := ghostLen - 1;
          if ghostLen < 0 {
            ghostLen := 0;
          }
        } else {
          smallBytes, smallLen := smallBytes + size, smallLen + 1;
        }
      }
      var overLimit := smallBytes + mainBytes > cfg.maxSize;
      if admitted && overLimit {
        signalled := true;
      }
    }

    /** Called when another component deleted the blob. */
    method Remove(hash: Hash, size: nat, f: RemoveFaults)
      requires queues.Valid()
      modifies this, queues
      ensures queues.Valid() && State() == CacheSteps.Remove(old(State()), hash, size, f)
      ensures signalled == old(signalled)
    {
      hide RemoveFromSmall, RemoveFromMain, RemoveFromGhosts, BoltQueues.Valid;
      RemoveSmall(hash, size, f.small);
      RemoveMain(hash, size, f.main);
      RemoveGhost(hash, f.ghostRead || f.ghostRemove);
    }

    method RemoveSmall(hash: Hash, size: nat, fails: bool)
      requires queues.Valid()
      modifies this, queues
      ensures queues.Valid() && State() == RemoveFromSmall(old(State()), hash, size, fails)
      ensures signalled == old(signalled)
    {
      hide Order, Push, Without, Newest, Inverse, BoltQueues.Entries, BoltQueues.Ghosts, BoltQueues.Valid;
      WithoutNothing(queues.Entries(Small), hash);
      var removed := queues.Remove(Small, hash, fails);
      if removed {
        smallBytes := smallBytes - size;
        if smallBytes < 0 {
          smallBytes := 0;
        }
        smallLen := smallLen - 1;
        if smallLen < 0 {
          smallLen := 0;
        }
      }
    }

    method RemoveMain(hash: Hash, size: nat, fails: bool)
      requires queues.Valid()
      modifies this, queues
      ensures queues.Valid() && State() == RemoveFromMain(old(State()), hash, size, fails)
      ensures signalled == old(signalled)
    {
      hide Order, Push, Without, Newest, Inverse, BoltQueues.Entries, BoltQueues.Ghosts, BoltQueues.Valid;
      WithoutNothing(queues.Entries(Main), hash);
      var removed := queues.Remove(Main, hash, fails);
      if removed {
        mainBytes := mainBytes - size;
        if mainBytes < 0 {
          mainBytes := 0;
        }
        mainLen := mainLen - 1;
        if mainLen < 0 {
          mainLen := 0;
        }
      }
    }

    /** Also purges the ghost set. */
    method RemoveGhost(hash: Hash, fails: bool)
      requires queues.Valid()
      modifies this, queues
      ensures queues.Valid() && State() == RemoveFromGhosts(old(State()), hash, fails)
      ensures signalled == old(signalled)
    {
      hide Order, Push, Without, Newest, Inverse, BoltQueues.Entries, BoltQueues.Ghosts, BoltQueues.Valid;
      var inGhost := queues.GhostContains(hash);
      if inGhost && !fails {
        queues.GhostRemove(hash, false);
        ghostLen := ghostLen - 1;
        if ghostLen < 0 {
          ghostLen := 0;
        }
      }
    }

    /** Pops the oldest entry of small and drops, re-queues, promotes or hands it over for deletion. */
    method EvictFromSmall(f: EvictFaults) returns (skipped: bool, pending: Option<Pending>, err: bool)
      requires queues.Valid()
      modifies this, queues
      ensures queues.Valid() && signalled == old(signalled)
      ensures Outcome(State(), DecisionOf(skipped, pending, err)) == CacheSteps.EvictFromSmall(old(State()), f)
    {
      hide Order, Push, Without, Newest, Inverse, BoltQueues.Entries, BoltQueues.Ghosts, BoltQueues.Valid;
      var popped, hash := queues.PopTail(Small, f.pop);
      if f.pop {
        return false, None, true;
      }
      if !popped {
        return false, None, false;
      }
      smallLen := smallLen - 1;
      var lookup := metaDB.GetBlob(hash, f.get);
      if lookup.NotFound? {
        return false, None, false;
      }
      if lookup.ReadError? {
        var _ := queues.PushHead(Small, hash, f.repush);
        smallLen := smallLen + 1;
        return false, None, true;
      }
      var entry := lookup.entry;
      if entry.refCount > 0 {
        var _ := queues.PushHead(Small, hash, f.push);
        if f.push {
          return false, None, true;
        }
        smallLen := smallLen + 1;
        return true, None, false;
      }
      smallBytes := smallBytes - entry.size;
      if entry.accessCount > 0 {
        var _ := queues.PushHead(Main, hash, f.push);
        if f.push {
          var _ := queues.PushHead(Small, hash, f.repush);
          smallBytes, smallLen := smallBytes + entry.size, smallLen + 1;
          return false, None, true;
        }
        mainBytes, mainLen := mainBytes + entry.size, mainLen + 1;
        return false, None, false;
      }
      return false, Some(Pending(Small, hash, entry.size, true)), false;
    }

    /** Pops the oldest entry of main and drops, re-queues, gives it a second chance or hands it over. */
    method EvictFromMain(f: EvictFaults) returns (skipped: bool, pending: Option<Pending>, err: bool)
      requires queues.Valid()
      modifies this, queues, metaDB`blobs
      ensures queues.Valid() && signalled == old(signalled)
      ensures Outcome(State(), DecisionOf(skipped, pending, err)) == CacheSteps.EvictFromMain(old(State()), f)
    {
      hide Order, Push, Without, Newest, Inverse, BoltQueues.Entries, BoltQueues.Ghosts, BoltQueues.Valid;
      var popped, hash := queues.PopTail(Main, f.pop);
      if f.pop {
        return false, None, true;
      }
      if !popped {
        return false, None, false;
      }
      mainLen := mainLen - 1;
      var lookup := metaDB.GetBlob(hash, f.get);
      if lookup.NotFound? {
        return false, None, false;
      }
      if lookup.ReadError? {
        var _ := queues.PushHead(Main, hash, f.repush);
        mainLen := mainLen + 1;
        return false, None, true;
      }
      var entry := lookup.entry;
      if entry.refCount > 0 {
        var _ := queues.PushHead(Main, hash, f.push);
        if f.push {
          return false, None, true;
        }
        mainLen := mainLen + 1;
        return true, None, false;
      }
      if entry.accessCount > 0 {
        entry := entry.(accessCount := entry.accessCount - 1);
        metaDB.PutBlob(hash, entry, f.put);
        if f.put {
          var _ := queues.PushHead(Main, hash, f.repush);
          mainLen := mainLen + 1;
          return false, None, true;
        }
        var _ := queues.PushHead(Main, hash, f.push);
        if f.push {
          return false, None, true;
        }
        mainLen := mainLen + 1;
        return false, None, false;
      }
      mainBytes := mainBytes - entry.size;
      return false, Some(Pending(Main, hash, entry.size, false)), false;
    }

    /** At most one decision; pinned entries are rotated, within the initial queue length. */
    method ScanEvictionQueue(queue: QueueName, attempts: int, plan: FaultPlan)
      returns (acted: bool, pending: Option<Pending>, err: bool)
      requires queues.Valid()
      modifies this, queues, metaDB`blobs
      ensures queues.Valid() && signalled == old(signalled)
      ensures err ==> !acted
      ensures Outcome(State(), ScanDecision(acted, pending, err)) == Scan(cfg, old(State()), queue, attempts, plan)
    {
      hide CacheSteps.EvictFromSmall, CacheSteps.EvictFromMain;
      var left := attempts;
      while left > 0
        invariant queues.Valid() && signalled == old(signalled)
        invariant Scan(cfg, State(), queue, left, plan) == Scan(cfg, old(State()), queue, attempts, plan)
        decreases left
      {
        if smallBytes + mainBytes <= cfg.maxSize
          || (queue == Small && (smallBytes <= SmallTarget(cfg) || smallLen == 0))
          || (queue == Main && mainLen == 0)
        {
          return false, None, false;
        }
        var skipped;
        if queue == Small {
          skipped, pending, err := EvictFromSmall(plan(left));
        } else {
          skipped, pending, err := EvictFromMain(plan(left));
        }
        if err {
          return false, None, true;
        }
        if !skipped {
          return true, pending, false;
        }
        left := left - 1;
      }
      return false, None, false;
    }

    /** Deletes the file, then the row. */
    method DeleteFromBackend(hash: Hash, f: DeleteFaults) returns (ok: bool)
      modifies backend, metaDB`blobs
      ensures (State(), ok) == CacheSteps.DeleteFromBackend(old(State()), hash, f)
    {
      backend.Delete(hash, f.backend);
      if f.backend {
        return false;
      }
      metaDB.DeleteBlob(hash, f.row);
      return !f.row;
    }

    method RestorePendingEviction(p: Pending, fails: bool)
      requires queues.Valid()
      modifies this, queues
      ensures queues.Valid() && State() == Restore(old(State()), p, fails) && signalled == old(signalled)
    {
      hide Order, Push, Without, Newest, Inverse, BoltQueues.Entries, BoltQueues.Ghosts, BoltQueues.Valid;
      var replaced := queues.PushHead(p.queue, p.hash, fails);
      if fails || replaced {
        return;
      }
      if p.queue == Small {
        smallBytes, smallLen := smallBytes + p.size, smallLen + 1;
      } else {
        mainBytes, mainLen := mainBytes + p.size, mainLen + 1;
      }
    }

    method FinishPendingEviction(p: Pending, f: FinishFaults)
      requires queues.Valid()
      modifies this, queues
      ensures queues.Valid() && State() == Finish(cfg, old(State()), p, f) && signalled == old(signalled)
    {
      hide Order, Push, Without, Newest, Inverse, BoltQueues.Entries, BoltQueues.Ghosts, BoltQueues.Valid;
      if p.addToGhost {
        queues.GhostAdd(p.hash, f.add);
        if !f.add {
          ghostLen := ghostLen + 1;
        }
        var ghostMax := GhostMaxEntries();
        queues.GhostTrimToMaxSize(ghostMax, f.trim);
        if ghostLen > ghostMax {
          ghostLen := ghostMax;
        }
      }
    }

    method GhostMaxEntries() returns (max: int)
      ensures max == GhostMax(cfg, State())
    {
      if cfg.ghostMaxEntries > 0 {
        return cfg.ghostMaxEntries;
      }
      if mainLen < GHOST_FLOOR {
        return GHOST_FLOOR;
      }
      return mainLen;
    }

    /** One logical eviction decision; it signals itself again only after real progress. */
    method MaybeEvict(f: RunFaults)
      requires queues.Valid()
      modifies this, queues, metaDB`blobs, backend
      ensures queues.Valid()
      ensures var r := CacheSteps.MaybeEvict(cfg, old(State()), f);
              State() == r.c && signalled == (old(signalled) || r.signal)
    {
      hide Order, Push, Without, Newest, Inverse, BoltQueues.Entries, BoltQueues.Ghosts, BoltQueues.Valid;
      hide Scan, Restore, Finish, CacheSteps.DeleteFromBackend;
      if !(smallBytes + mainBytes > cfg.maxSize) {
        return;
      }
      var acted, pending, err := ScanEvictionQueue(Small, smallLen, f.small);
      if !acted && !err {
        acted, pending, err := ScanEvictionQueue(Main, mainLen, f.main);
      }
      assert CacheSteps.MaybeEvict(cfg, old(State()), f)
          == Settle(cfg, Outcome(State(), ScanDecision(acted, pending, err)), f);
      if acted && pending.Some? {
        var ok := DeleteFromBackend(pending.value.hash, f.delete);
        if !ok {
          RestorePendingEviction(pending.value, f.restore);
          acted := false;
        } else {
          FinishPendingEviction(pending.value, f.finish);
        }
      }
      if acted && smallBytes + mainBytes > cfg.maxSize {
        signalled := true;
      }
    }

    /** The background goroutine until its channel is empty: the chain of self-signalled runs stops, and
        stops at rest. */
    method RunWhileSignalled(f: RunFaults, ghost sz: Hash -> nat)
      requires queues.Valid() && Counted(State(), sz) && Quiet(f)
      modifies this, queues, metaDB`blobs, backend
      ensures queues.Valid() && Counted(State(), sz) && !signalled
      ensures State() == if old(signalled) then Drained(cfg, old(State()), sz) else old(State())
    {
      hide Counted, After, NextEvent, Potential, CacheSteps.MaybeEvict;
      while signalled
        invariant queues.Valid() && Counted(State(), sz)
        invariant !signalled && old(signalled) ==> NextEvent(cfg, State()) == Rest
        invariant old(signalled) ==> Drained(cfg, State(), sz) == Drained(cfg, old(State()), sz)
        invariant !old(signalled) ==> !signalled && State() == old(State())
        decreases Potential(State()), signalled
      {
        signalled := false;
        ghost var c := State();
        RunDoesNextEvent(cfg, c, sz, f);
        AfterKeepsCounted(cfg, c, sz);
        if NextEvent(cfg, c) != Rest { ActingLowersPotential(cfg, c, sz); }
        MaybeEvict(f);
        RestUnlessOver(cfg, c, sz);
      }
    }
  }

  /** Builds a manager, or refuses a configuration or queues that cannot be read. */
  method NewManager(maxSize: int, smallPercent: int, ghostMaxEntries: int, queues: BoltQueues, metaDB: BoltDB,
                    backend: Backend, unreadable: set<Hash>, queuesFail: bool)
    returns (m: Option<Manager>)
    requires queues.Valid()
    ensures m.Some? <==> maxSize > 0 && smallPercent <= 100 && !queuesFail
    ensures m.Some? ==>
              var r := m.value;
              && fresh(r) && Some(r.cfg) == NormalizedConfig(maxSize, smallPercent, ghostMaxEntries)
              && r.queues == queues && r.metaDB == metaDB && r.backend == backend
              && r.State() == Recomputed(r.State(), unreadable) && r.signalled == Over(r.cfg, r.State())
  {
    var cfg := NormalizedConfig(maxSize, smallPercent, ghostMaxEntries);
    if cfg.None? || queuesFail {
      return None;
    }
    var manager := new Manager(cfg.value, queues, metaDB, backend, unreadable);
    return Some(manager);
  }

  lemma WithoutNothing(q: seq<Hash>, h: Hash)
    ensures h !in q ==> Without(q, h) == q
  {
    if h !in q { WithoutAbsent(q, h); }
  }

  /** A run that does not signal leaves the evictor at rest. */
  lemma RestUnlessOver(cfg: Config, c: Cache, sz: Hash -> nat)
    requires Counted(c, sz)
    ensures NextEvent(cfg, c) == Rest ==> After(cfg, c) == c
    ensures !Over(cfg, After(cfg, c)) ==> NextEvent(cfg, After(cfg, c)) == Rest
  {
  }
}
