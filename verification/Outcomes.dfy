/** What each operation of the cache comes to, said in queues, counters, rows, files and numbers alone. */
module Outcomes {
  import opened ByteStrings
  import opened Buckets
  import opened Fifo
  import opened Queues
  import opened Blobs
  import opened CacheSteps
  import opened Drain
  import opened StoreSteps
  import opened Accounting

  // ---- One run of the evictor ----

  predicate Free(c: Cache, h: Hash) { h in c.rows && c.rows[h].refCount == 0 }

  /** The entry at `i` is the oldest of its queue without references. */
  ghost predicate OldestFree(c: Cache, q: seq<Hash>, i: nat) {
    i < |q| && Free(c, q[i]) && forall j :: 0 <= j < i ==> !Free(c, q[j])
  }

  ghost predicate SmallHasShare(cfg: Config, c: Cache) { c.smallBytes * 100 > cfg.maxSize * cfg.smallPercent }

  lemma OldestIsFirstFree(c: Cache, q: seq<Hash>, i: nat)
    requires (forall h :: h in q ==> h in c.rows) && OldestFree(c, q, i)
    ensures FirstFree(c.rows, q) == i
  {
    forall j | 0 <= j < i ensures Pinned(c.rows, q[j]) { assert q[j] in q && !Free(c, q[j]); }
    FirstFreeAt(c.rows, q, i);
  }

  lemma NoneIsFree(c: Cache, q: seq<Hash>)
    requires (forall h :: h in q ==> h in c.rows) && forall h :: h in q ==> !Free(c, h)
    ensures FirstFree(c.rows, q) == |q|
  {
    assert AllPinned(c.rows, q);
    FirstFreeAll(c.rows, q);
  }

  /** Over the limit and with more than its share of it, small gives up its oldest unreferenced blob: to the
      newest end of main if it was ever accessed, else for good, remembered as the newest ghost. */
  lemma RunOnSmall(cfg: Config, c: Cache, sz: Hash -> nat, f: RunFaults, i: nat)
    requires Counted(c, sz) && Quiet(f) && c.smallBytes + c.mainBytes > cfg.maxSize
    requires SmallHasShare(cfg, c) && OldestFree(c, c.small, i)
    ensures var r := MaybeEvict(cfg, c, f);
            var h, d := c.small[i], r.c;
            && r.acted && (r.signal <==> d.smallBytes + d.mainBytes > cfg.maxSize)
            && d.small == c.small[i + 1..] + c.small[..i]
            && d.smallBytes == c.smallBytes - sz(h) && d.smallLen == c.smallLen - 1
            && (if c.rows[h].accessCount > 0 then
                  d.main == c.main + [h] && d.mainBytes == c.mainBytes + sz(h) && d.mainLen == c.mainLen + 1
                  && d.rows == c.rows && d.files == c.files && d.ghosts == c.ghosts && d.ghostLen == c.ghostLen
                else
                  d.main == c.main && d.mainBytes == c.mainBytes && d.mainLen == c.mainLen
                  && d.rows == c.rows - {h} && d.files == c.files - {h}
                  && d.ghosts != [] && d.ghosts[|d.ghosts| - 1] == h)
  {
    hide MaybeEvict, FirstFree, NoDup, Sum, GhostMax, Without;
    RunDoesNextEvent(cfg, c, sz, f);
    OldestIsFirstFree(c, c.small, i);
    OverTarget(cfg, c.smallBytes);
    NewestIsLast(cfg, c, i);
  }

  /** Otherwise main gives its oldest unreferenced blob a second chance, which uses up one access and moves it to
      the newest end, or evicts it for good without remembering it. */
  lemma RunOnMain(cfg: Config, c: Cache, sz: Hash -> nat, f: RunFaults, i: nat)
    requires Counted(c, sz) && Quiet(f) && c.smallBytes + c.mainBytes > cfg.maxSize
    requires !SmallHasShare(cfg, c) || forall h :: h in c.small ==> !Free(c, h)
    requires OldestFree(c, c.main, i)
    ensures var r := MaybeEvict(cfg, c, f);
            var h, d := c.main[i], r.c;
            var rest := c.main[i + 1..] + c.main[..i];
            && r.acted && (r.signal <==> d.smallBytes + d.mainBytes > cfg.maxSize)
            && d.small == c.small && d.smallBytes == c.smallBytes && d.smallLen == c.smallLen
            && d.ghosts == c.ghosts && d.ghostLen == c.ghostLen
            && (if c.rows[h].accessCount > 0 then
                  d.main == rest + [h] && d.mainBytes == c.mainBytes && d.mainLen == c.mainLen && d.files == c.files
                  && d.rows == c.rows[h := c.rows[h].(accessCount := c.rows[h].accessCount - 1)]
                else
                  d.main == rest && d.mainBytes == c.mainBytes - sz(h) && d.mainLen == c.mainLen - 1
                  && d.rows == c.rows - {h} && d.files == c.files - {h})
  {
    hide MaybeEvict, FirstFree, NoDup, Sum, GhostMax, Without;
    RunDoesNextEvent(cfg, c, sz, f);
    OldestIsFirstFree(c, c.main, i);
    OverTarget(cfg, c.smallBytes);
    if SmallHasShare(cfg, c) { NoneIsFree(c, c.small); }
  }

  /** Within the limit, or with nothing to take, a run changes nothing and does not signal. */
  lemma RunOnNothing(cfg: Config, c: Cache, sz: Hash -> nat, f: RunFaults)
    requires Counted(c, sz) && Quiet(f)
    requires c.smallBytes + c.mainBytes > cfg.maxSize ==>
               (!SmallHasShare(cfg, c) || forall h :: h in c.small ==> !Free(c, h))
               && forall h :: h in c.main ==> !Free(c, h)
    ensures MaybeEvict(cfg, c, f) == Run(c, false, false)
  {
    hide MaybeEvict, FirstFree, NoDup, Sum, GhostMax, Without;
    RunDoesNextEvent(cfg, c, sz, f);
    OverTarget(cfg, c.smallBytes);
    if c.smallBytes + c.mainBytes > cfg.maxSize {
      if SmallHasShare(cfg, c) { NoneIsFree(c, c.small); }
      NoneIsFree(c, c.main);
    }
  }

  /** So while the cache is over its limit and small holds an unreferenced blob, a run takes the oldest such blob
      out of small if and only if small holds more than its percentage of the limit, and else leaves small be. */
  lemma SmallGivesExactly(cfg: Config, c: Cache, sz: Hash -> nat, f: RunFaults, i: nat)
    requires Counted(c, sz) && Quiet(f) && c.smallBytes + c.mainBytes > cfg.maxSize && OldestFree(c, c.small, i)
    ensures var d := MaybeEvict(cfg, c, f).c;
            && (c.small[i] !in d.small <==> c.smallBytes * 100 > cfg.maxSize * cfg.smallPercent)
            && (c.small[i] in d.small ==> d.small == c.small)
  {
    hide MaybeEvict, NoDup, Sum, Free;
    TakenMembers(c.small, i);
    if SmallHasShare(cfg, c) {
      RunOnSmall(cfg, c, sz, f, i);
    } else if exists j: nat :: OldestFree(c, c.main, j) {
      var j: nat :| OldestFree(c, c.main, j);
      RunOnMain(cfg, c, sz, f, j);
    } else {
      SomeOldest(c, c.main, 0);
      RunOnNothing(cfg, c, sz, f);
    }
  }

  lemma {:induction false} SomeOldest(c: Cache, q: seq<Hash>, i: nat)
    requires i <= |q| && forall j :: 0 <= j < i ==> !Free(c, q[j])
    ensures (exists j: nat :: OldestFree(c, q, j)) || forall h :: h in q ==> !Free(c, h)
    decreases |q| - i
  {
    hide Free;
    if i < |q| {
      if Free(c, q[i]) { assert OldestFree(c, q, i); } else { SomeOldest(c, q, i + 1); }
    }
  }

  // ---- A deletion that fails ----

  /** Every scan succeeds but the deletion of the candidate fails before its file or before its row. */
  ghost predicate OnlyDeletionFails(f: RunFaults) {
    && (forall n :: f.small(n) == NO_FAULT) && (forall n :: f.main(n) == NO_FAULT)
    && (f.delete.backend || f.delete.row)
  }

  /** A candidate from small whose deletion fails comes back at the newest end, with all counters as before and
      its row kept; it is lost from the queue only when that write fails too. The run does not signal. */
  lemma FailedDeletionFromSmall(cfg: Config, c: Cache, sz: Hash -> nat, f: RunFaults, i: nat)
    requires Counted(c, sz) && OnlyDeletionFails(f) && c.smallBytes + c.mainBytes > cfg.maxSize
    requires SmallHasShare(cfg, c) && OldestFree(c, c.small, i) && c.rows[c.small[i]].accessCount == 0
    ensures var h, rest := c.small[i], c.small[i + 1..] + c.small[..i];
            var files := if f.delete.backend then c.files else c.files - {h};
            MaybeEvict(cfg, c, f)
            == Run(if f.restore then c.(small := rest, files := files, smallBytes := c.smallBytes - sz(h),
                                        smallLen := c.smallLen - 1)
                   else c.(small := rest + [h], files := files), false, false)
  {
    hide Scan, NoDup, Sum, Settle, SmallOutcome;
    OldestIsFirstFree(c, c.small, i);
    OverTarget(cfg, c.smallBytes);
    assert Rotated(c.small, 0) == c.small && c.(small := c.small) == c;
    ScanRotatesSmall(cfg, c, sz, 0, f.small);
    FailedSettleSmall(cfg, c, sz, f, i);
  }

  lemma FailedSettleSmall(cfg: Config, c: Cache, sz: Hash -> nat, f: RunFaults, i: nat)
    requires Counted(c, sz) && (f.delete.backend || f.delete.row)
    requires i < |c.small| && c.rows[c.small[i]].accessCount == 0
    ensures var h, rest := c.small[i], c.small[i + 1..] + c.small[..i];
            var files := if f.delete.backend then c.files else c.files - {h};
            && !SmallOutcome(c, i).d.Idle?
            && Settle(cfg, SmallOutcome(c, i), f)
               == Run(if f.restore then c.(small := rest, files := files, smallBytes := c.smallBytes - sz(h),
                                           smallLen := c.smallLen - 1)
                      else c.(small := rest + [h], files := files), false, false)
  {
    hide NoDup, Sum, Push, Finish;
    TakenMembers(c.small, i);
    PushMembers(Taken(c.small, i), c.small[i]);
  }

  lemma FailedDeletionFromMain(cfg: Config, c: Cache, sz: Hash -> nat, f: RunFaults, i: nat)
    requires Counted(c, sz) && OnlyDeletionFails(f) && c.smallBytes + c.mainBytes > cfg.maxSize
    requires !SmallHasShare(cfg, c) || forall h :: h in c.small ==> !Free(c, h)
    requires OldestFree(c, c.main, i) && c.rows[c.main[i]].accessCount == 0
    ensures var h, rest := c.main[i], c.main[i + 1..] + c.main[..i];
            var files := if f.delete.backend then c.files else c.files - {h};
            MaybeEvict(cfg, c, f)
            == Run(if f.restore then c.(main := rest, files := files, mainBytes := c.mainBytes - sz(h),
                                        mainLen := c.mainLen - 1)
                   else c.(main := rest + [h], files := files), false, false)
  {
    hide Scan, NoDup, Sum, Settle, SmallOutcome, MainOutcome;
    OldestIsFirstFree(c, c.main, i);
    OverTarget(cfg, c.smallBytes);
    if SmallHasShare(cfg, c) { NoneIsFree(c, c.small); }
    assert Rotated(c.small, 0) == c.small && c.(small := c.small) == c;
    assert Rotated(c.main, 0) == c.main && c.(main := c.main) == c;
    ScanRotatesSmall(cfg, c, sz, 0, f.small);
    ScanRotatesMain(cfg, c, sz, 0, f.main);
    FailedSettleMain(cfg, c, sz, f, i);
  }

  lemma FailedSettleMain(cfg: Config, c: Cache, sz: Hash -> nat, f: RunFaults, i: nat)
    requires Counted(c, sz) && (f.delete.backend || f.delete.row)
    requires i < |c.main| && c.rows[c.main[i]].accessCount == 0
    ensures var h, rest := c.main[i], c.main[i + 1..] + c.main[..i];
            var files := if f.delete.backend then c.files else c.files - {h};
            Settle(cfg, MainOutcome(c, i), f)
            == Run(if f.restore then c.(main := rest, files := files, mainBytes := c.mainBytes - sz(h),
                                        mainLen := c.mainLen - 1)
                   else c.(main := rest + [h], files := files), false, false)
  {
    hide NoDup, Sum, Push, Finish;
    TakenMembers(c.main, i);
    PushMembers(Taken(c.main, i), c.main[i]);
  }

  // ---- One selection, whatever fails ----

  /** The entry a selection pops stays where it was, at the newest end; moves to the newest end of main; is handed
      over; or is lost, if and only if it has no row or every write that would put it back fails. All other
      entries keep their places. */
  lemma SelectionLosesExactly(c: Cache, queue: QueueName, f: EvictFaults)
    requires !f.pop && (queue == Small ==> c.small != []) && (queue == Main ==> c.main != [])
    requires NoDup(c.small) && NoDup(c.main) && forall h :: h in c.small ==> h !in c.main
    ensures var o := EvictFrom(c, queue, f);
            var q := if queue == Small then c.small else c.main;
            var h, rest := q[0], q[1..];
            var own, other := if queue == Small then o.c.small else o.c.main,
                              if queue == Small then o.c.main else o.c.small;
            var lost := if f.get then f.repush
                        else h !in c.rows
                             || (c.rows[h].refCount > 0 && f.push)
                             || (c.rows[h].refCount == 0 && c.rows[h].accessCount > 0
                                 && (if queue == Main && !f.put then f.push
                                     else f.repush && (queue == Small ==> f.push)));
            && (own == rest || own == rest + [h])
            && (other == (if queue == Small then c.main else c.small) || (queue == Small && other == c.main + [h]))
            && (lost <==> h !in own && h !in other && !o.d.Evicting?)
            && (o.d.Evicting? ==> o.d.pending.hash == h && o.d.pending.queue == queue && h !in own && h !in other
                                  && Free(c, h) && o.d.pending.size == c.rows[h].size
                                  && (o.d.pending.addToGhost <==> queue == Small))
            && (o.d.Skipped? ==> own == rest + [h] && h in c.rows && c.rows[h].refCount > 0)
            && (o.d.Failed? <==> f.get || (h in c.rows && (c.rows[h].refCount > 0 || c.rows[h].accessCount > 0)
                                           && (f.push || (queue == Main && c.rows[h].refCount == 0 && f.put))))
            && o.c.files == c.files && o.c.ghosts == c.ghosts && o.c.ghostLen == c.ghostLen
  {
    hide Push, Without;
    var q := if queue == Small then c.small else c.main;
    var h, rest := q[0], q[1..];
    assert h in q;
    PushMembers(rest, h);
    PushMembers(c.main, h);
    assert h !in rest;
  }

  /** A failed pop changes nothing; an empty queue is no failure and counts as a decision. */
  lemma EmptySelection(c: Cache, queue: QueueName, f: EvictFaults)
    requires f.pop || (queue == Small && c.small == []) || (queue == Main && c.main == [])
    ensures EvictFrom(c, queue, f) == Outcome(c, if f.pop then Failed else Acted)
  {
  }

  // ---- Admission ----

  /** Where a new blob goes and what is counted, whatever fails. */
  lemma AdmitOutcome(c: Cache, h: Hash, size: nat, f: AdmitFaults)
    requires h !in c.small && h !in c.main
    ensures var d := Admit(c, h, size, f);
            && d.rows == c.rows && d.files == c.files
            && (f.write ==> d == c)
            && (!f.write && !f.ghostRead && h in c.ghosts ==>
                  d.small == c.small && d.smallBytes == c.smallBytes && d.smallLen == c.smallLen
                  && d.main == c.main + [h] && d.mainBytes == c.mainBytes + size && d.mainLen == c.mainLen + 1
                  && h !in d.ghosts && (forall g :: g in d.ghosts <==> g in c.ghosts && g != h)
                  && d.ghostLen == if c.ghostLen >= 1 then c.ghostLen - 1 else 0)
            && (!f.write && (f.ghostRead || h !in c.ghosts) ==>
                  d.main == c.main && d.mainBytes == c.mainBytes && d.mainLen == c.mainLen
                  && d.small == c.small + [h] && d.smallBytes == c.smallBytes + size && d.smallLen == c.smallLen + 1
                  && d.ghosts == c.ghosts && d.ghostLen == c.ghostLen)
  {
    hide Push, Without;
    PushMembers(c.small, h);
    PushMembers(c.main, h);
    WithoutMembers(c.ghosts, h);
  }

  /** Admitting again what is still queued: in small it moves to the newest end and is not counted twice; a ghost
      hit counts it in main even where it already is there. */
  lemma ReadmitOutcome(c: Cache, h: Hash, size: nat, f: AdmitFaults)
    requires NoDup(c.small) && NoDup(c.main) && !f.write
    ensures var d := Admit(c, h, size, f);
            (f.ghostRead || h !in c.ghosts) && h in c.small ==>
              d == c.(small := d.small) && d.small != [] && d.small[|d.small| - 1] == h
              && |d.small| == |c.small| && forall g :: g in d.small <==> g in c.small
    ensures var d := Admit(c, h, size, f);
            !f.ghostRead && h in c.ghosts && h in c.main ==>
              d == c.(main := d.main, ghosts := d.ghosts, ghostLen := d.ghostLen, mainBytes := c.mainBytes + size,
                      mainLen := c.mainLen + 1)
              && d.main != [] && d.main[|d.main| - 1] == h && |d.main| == |c.main|
  {
    hide NoDup, Without;
    PushNoDup(c.small, h);
    PushNoDup(c.main, h);
    PushMembers(c.small, h);
  }

  /** Taking an entry out leaves the others in their order. */
  lemma WithoutMiddle(a: seq<Hash>, x: Hash, b: seq<Hash>)
    requires x !in a && x !in b
    ensures Without(a + [x] + b, x) == a + b
    decreases |b|
  {
    if b == [] {
      WithoutAbsent(a, x);
      WithoutLast(a, x, x);
      assert a + [x] + b == a + [x] && a + b == a;
    } else {
      var n := |b| - 1;
      WithoutMiddle(a, x, b[..n]);
      assert b[n] in b;
      assert a + [x] + b == (a + [x] + b[..n]) + [b[n]];
      WithoutLast(a + [x] + b[..n], b[n], x);
      assert a + b == (a + b[..n]) + [b[n]];
    }
  }

  // ---- The end of an eviction ----

  /** The room for ghosts: as configured, or as many as main has entries but at least 128. A finish without
      failures keeps the newest that fit, the evicted blob last. */
  lemma FinishOutcome(cfg: Config, c: Cache, p: Pending)
    requires NoDup(c.ghosts) && p.hash !in c.ghosts
    ensures var d := Finish(cfg, c, p, FinishFaults(false, false));
            var room := if cfg.ghostMaxEntries > 0 then cfg.ghostMaxEntries
                        else if c.mainLen > 128 then c.mainLen else 128;
            var all := c.ghosts + [p.hash];
            if !p.addToGhost then d == c
            else d == c.(ghosts := if |all| > room then all[|all| - room..] else all,
                         ghostLen := if c.ghostLen + 1 > room then room else c.ghostLen + 1)
  {
    hide Push;
    PushMembers(c.ghosts, p.hash);
  }

  // ---- Storing ----

  /** A stored blob starts with the times of its put, no access and no reference; its row is there before the file
      and goes again when the file cannot be written. Content that is there already counts as one more access,
      up to three. */
  lemma PutOutcome(c: Cache, h: Hash, size: nat, now: Time, f: PutFaults)
    ensures var (d, result) := Put(c, h, size, now, f);
            && (result.Existed? <==> !f.lookup && h in c.files)
            && (result.Created? <==> !f.lookup && h !in c.files && !f.row && !f.write)
            && (forall g :: g in c.rows && g != h ==> g in d.rows && d.rows[g] == c.rows[g])
            && (forall g :: g in d.rows && g != h ==> g in c.rows)
            && d.files == (if result.Created? then c.files + {h} else c.files)
            && (result.Created? ==>
                  h in d.rows && d.rows[h].cachedAt == now && d.rows[h].lastAccess == now && d.rows[h].size == size
                  && d.rows[h].refCount == 0 && d.rows[h].accessCount == 0)
            && (result.Existed? && (f.touch || h !in c.rows) ==> d == c)
            && (result.Existed? && !f.touch && h in c.rows ==>
                  h in d.rows && d.rows[h].lastAccess == now && d.rows[h].cachedAt == c.rows[h].cachedAt
                  && d.rows[h].size == c.rows[h].size && d.rows[h].refCount == c.rows[h].refCount
                  && d.rows[h].accessCount
                     == (if c.rows[h].accessCount < 3 then c.rows[h].accessCount + 1 else c.rows[h].accessCount)
                  && d == c.(rows := d.rows))
            && (result.PutFailed? ==>
                  d == c.(rows := d.rows)
                  && (f.lookup || f.row ==> d == c)
                  && (!f.lookup && !f.row ==> (h in d.rows <==> f.rollback)))
  {
    hide Admit;
    AdmitKeepsDisk(c.(rows := c.rows[h := BlobEntry(size, now, now, 0, 0)], files := c.files + {h}), h, size, f.admit);
  }

  // ---- Deleting ----

  /** What the three deletions tell the evictor: the collector only after it has deleted file and row, and with the
      row's size; a deletion by hand also when the row stays, and with size zero when it could not read it. */
  lemma DeletionTellsEvictor(c: Cache, h: Hash, f: DropFaults)
    requires h in c.rows
    ensures var d := CollectBlob(c, h, f).0;
            if f.get || f.backend || f.row then d == c.(files := d.files)
            else d == Remove(c.(files := c.files - {h}, rows := c.rows - {h}), h, c.rows[h].size, f.remove)
    ensures var d := DeleteContent(c, h, f).0;
            var gone := c.(files := c.files - {h}, rows := if f.row then c.rows else c.rows - {h});
            if f.backend then d == c else d == Remove(gone, h, if f.get then 0 else c.rows[h].size, f.remove)
    ensures DeleteContent(c, h, f).1 <==> !f.backend
  {
    hide Remove;
  }

  /** The evictor takes the blob out of the two queues and the ghost set, each unless its call fails, keeps the
      order of the rest, and lowers the counters of what it took, not below zero. */
  lemma RemoveOutcome(c: Cache, h: Hash, size: nat, f: RemoveFaults)
    requires NoDup(c.small) && NoDup(c.main) && NoDup(c.ghosts)
    ensures var d := Remove(c, h, size, f);
            && d.rows == c.rows && d.files == c.files
            && (if f.small || h !in c.small then
                  d.small == c.small && d.smallBytes == c.smallBytes && d.smallLen == c.smallLen
                else
                  h !in d.small && |d.small| == |c.small| - 1 && (forall g :: g in d.small <==> g in c.small && g != h)
                  && d.smallBytes == (if c.smallBytes > size then c.smallBytes - size else 0)
                  && d.smallLen == (if c.smallLen > 1 then c.smallLen - 1 else 0))
            && (if f.main || h !in c.main then
                  d.main == c.main && d.mainBytes == c.mainBytes && d.mainLen == c.mainLen
                else
                  h !in d.main && |d.main| == |c.main| - 1 && (forall g :: g in d.main <==> g in c.main && g != h)
                  && d.mainBytes == (if c.mainBytes > size then c.mainBytes - size else 0)
                  && d.mainLen == (if c.mainLen > 1 then c.mainLen - 1 else 0))
            && (if f.ghostRead || f.ghostRemove || h !in c.ghosts then
                  d.ghosts == c.ghosts && d.ghostLen == c.ghostLen
                else
                  h !in d.ghosts && |d.ghosts| == |c.ghosts| - 1
                  && (forall g :: g in d.ghosts <==> g in c.ghosts && g != h)
                  && d.ghostLen == (if c.ghostLen > 1 then c.ghostLen - 1 else 0))
  {
    hide Without, NoDup;
    WithoutMembers(c.small, h);
    WithoutMembers(c.main, h);
    WithoutMembers(c.ghosts, h);
    WithoutNoDup(c.small, h);
    WithoutNoDup(c.main, h);
    WithoutNoDup(c.ghosts, h);
  }

  // ---- Sweeping ----

  /** The key of a row written before references carried a prefix is the part after the colon. */
  lemma PlainDigestOfReference(algorithm: Bytes, digest: Bytes)
    requires |algorithm| == 6
    ensures PlainDigest(Hash(algorithm + [58] + digest)) == Hash(digest)
  {
    assert (algorithm + [58] + digest)[7..] == digest;
  }

  /** The files whose lookup or deletion fails. */
  function FailedFiles(rows: Rows, files: seq<Hash>, f: SweepFaults): seq<Hash> {
    if files == [] then []
    else
      var h := files[0];
      var fails := h in f.unreadable
                   || (h !in rows && (h in f.unreadablePlain || (PlainDigest(h) !in rows && h in f.undeletable)));
      (if fails then [h] else []) + FailedFiles(rows, files[1..], f)
  }

  /** A sweep that did not use up its budget reports each of them as an error. */
  lemma {:induction false} SweepReportsFailures(rows: Rows, listing: seq<Hash>, budget: nat, f: SweepFaults)
    requires |Swept(rows, listing, budget, f)| < budget
    ensures SweepErrors(rows, listing, budget, f) == |FailedFiles(rows, listing, f)|
  {
    hide PlainDigest;
    if listing != [] {
      SweepReportsFailures(rows, listing[1..], if FateOf(rows, listing[0], f).Deleted? then budget - 1 else budget, f);
    }
  }
}
