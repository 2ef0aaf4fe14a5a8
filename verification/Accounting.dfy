/** Whole-store accounting: what steps without failures keep in agreement, and what a restart, an eviction
    and a collection then come to. */
module Accounting {
  import opened ByteStrings
  import opened Buckets
  import opened Fifo
  import opened Blobs
  import opened Envelopes
  import opened MetaDB
  import opened CacheSteps
  import opened Drain
  import opened StoreSteps

  // ---- Whole-store accounting ----

  /** Files, rows and the two queues hold the same blobs, the ghost set holds none of them, all five
      counters are exact, and access counters are within their cap. */
  ghost predicate Accounted(c: Cache, sz: Hash -> nat) {
    && Counted(c, sz)
    && (forall h :: h in c.rows ==> h in c.small || h in c.main)
    && c.files == c.rows.Keys
    && NoDup(c.ghosts) && (forall h :: h in c.ghosts ==> h !in c.rows)
    && c.ghostLen == |c.ghosts|
    && (forall h :: h in c.rows ==> c.rows[h].accessCount <= MAX_ACCESS)
  }

  /** Rows may change as long as keys and sizes stay and access counters keep their cap. */
  ghost predicate SameBlobs(a: Rows, b: Rows) {
    && a.Keys == b.Keys
    && (forall h :: h in a ==> a[h].size == b[h].size)
    && (forall h :: h in a && a[h].accessCount <= MAX_ACCESS ==> b[h].accessCount <= MAX_ACCESS)
  }

  lemma RowsChangeAccounted(c: Cache, rows: Rows, sz: Hash -> nat)
    requires Accounted(c, sz) && SameBlobs(c.rows, rows)
    ensures Accounted(c.(rows := rows), sz)
  {
    hide NoDup, Sum;
  }

  /** Content stored for the first time is admitted to exactly one queue. */
  lemma AdmitAccounted(c: Cache, h: Hash, e: BlobEntry, sz: Hash -> nat)
    requires Accounted(c, sz) && h !in c.rows && e.size == sz(h) && e.accessCount <= MAX_ACCESS
    ensures var stored := c.(rows := c.rows[h := e], files := c.files + {h});
            Accounted(Admit(stored, h, sz(h), AdmitFaults(false, false)), sz)
  {
    hide NoDup, Sum, Push, Without;
    PushMembers(c.small, h);
    PushMembers(c.main, h);
    PushNoDup(c.small, h);
    PushNoDup(c.main, h);
    SumOfPush(c.small, h, sz);
    SumOfPush(c.main, h, sz);
    WithoutMembers(c.ghosts, h);
    WithoutNoDup(c.ghosts, h);
    if h in c.ghosts { assert |c.ghosts| > 0; }
  }

  /** Erasing a hash from files, rows and queues keeps the account. */
  lemma ErasedAccounted(c: Cache, h: Hash, sz: Hash -> nat)
    requires Accounted(c, sz)
    ensures Accounted(Erased(c, h), sz)
    ensures Erased(c, h).rows == c.rows - {h} && Erased(c, h).files == c.files - {h}
  {
    hide NoDup, Sum, Without;
    WithoutMembers(c.small, h);
    WithoutMembers(c.main, h);
    WithoutMembers(c.ghosts, h);
    WithoutNoDup(c.small, h);
    WithoutNoDup(c.main, h);
    WithoutNoDup(c.ghosts, h);
    SumWithout(c.small, h, sz);
    SumWithout(c.main, h, sz);
  }

  lemma NewestFacts(q: seq<Hash>, n: int)
    requires NoDup(q) && n > 0
    ensures NoDup(Newest(q, n)) && |Newest(q, n)| == if |q| > n then n else |q|
    ensures forall h :: h in Newest(q, n) ==> h in q
  {
  }

  lemma GhostMaxPositive(cfg: Config, c: Cache)
    ensures GhostMax(cfg, c) > 0
  {
  }

  lemma EvictedFromSmallAccounted(cfg: Config, c: Cache, i: nat, sz: Hash -> nat)
    requires Accounted(c, sz) && i < |c.small|
    ensures Accounted(EvictedFromSmall(cfg, c, i), sz)
  {
    hide GhostMax, NoDup, Sum, Taken, Push, Newest;
    var h := c.small[i];
    EvictedFromSmallCounted(cfg, c, i, sz);
    TakenFacts(c.small, i, sz);
    var d := c.(small := Taken(c.small, i), smallBytes := c.smallBytes - c.rows[h].size,
                smallLen := c.smallLen - 1, rows := c.rows - {h}, files := c.files - {h});
    GhostMaxPositive(cfg, d);
    PushNoDup(c.ghosts, h);
    PushMembers(c.ghosts, h);
    NewestFacts(Push(c.ghosts, h), GhostMax(cfg, d));
  }

  lemma EvictedFromMainAccounted(c: Cache, i: nat, sz: Hash -> nat)
    requires Accounted(c, sz) && i < |c.main|
    ensures Accounted(EvictedFromMain(c, i), sz)
  {
    hide NoDup, Sum, Taken;
    EvictedFromMainCounted(c, i, sz);
    TakenFacts(c.main, i, sz);
  }

  lemma PromotedAccounted(c: Cache, i: nat, sz: Hash -> nat)
    requires Accounted(c, sz) && i < |c.small|
    ensures Accounted(Promoted(c, i), sz)
  {
    hide NoDup, Sum, Taken;
    PromotedCounted(c, i, sz);
    TakenFacts(c.small, i, sz);
  }

  lemma GivenSecondChanceAccounted(c: Cache, i: nat, sz: Hash -> nat)
    requires Accounted(c, sz) && i < |c.main| && c.rows[c.main[i]].accessCount > 0
    ensures Accounted(GivenSecondChance(c, i), sz)
  {
    hide NoDup, Sum, Taken;
    GivenSecondChanceCounted(c, i, sz);
    TakenFacts(c.main, i, sz);
  }

  /** Every run of the evictor keeps the account. */
  lemma AfterAccounted(cfg: Config, c: Cache, sz: Hash -> nat)
    requires Accounted(c, sz)
    ensures Accounted(After(cfg, c), sz)
  {
    hide FirstFree, Promoted, EvictedFromSmall, GivenSecondChance, EvictedFromMain;
    match NextEvent(cfg, c)
    case Rest =>
    case Promote(_) => PromotedAccounted(c, FirstFree(c.rows, c.small), sz);
    case EvictSmall(_) => EvictedFromSmallAccounted(cfg, c, FirstFree(c.rows, c.small), sz);
    case SecondChance(_) => GivenSecondChanceAccounted(c, FirstFree(c.rows, c.main), sz);
    case EvictMain(_) => EvictedFromMainAccounted(c, FirstFree(c.rows, c.main), sz);
  }

  /** The cap makes the fate of every blob short: one promotion, three second chances and one eviction. */
  lemma FateIsShort(c: Cache, sz: Hash -> nat, h: Hash)
    requires Accounted(c, sz)
    ensures |Fate(c, h)| <= MAX_ACCESS + 2
  {
    if h in c.rows { CopiesLength(SecondChance(h), c.rows[h].accessCount); }
  }

  lemma {:induction false} CopiesLength(e: Event, n: nat)
    ensures |Copies(e, n)| == n
  {
    if n > 0 { CopiesLength(e, n - 1); }
  }

  // ---- Eviction, then storing the same content again ----

  /** A one-hit wonder evicted from small is remembered: storing it again admits it to the newest end of
      main and forgets it. */
  lemma GhostRoundTrip(cfg: Config, c: Cache, sz: Hash -> nat, h: Hash, now: Time)
    requires Accounted(c, sz) && NextEvent(cfg, c) == EvictSmall(h)
    ensures var d := After(cfg, c);
            var p := Put(d, h, sz(h), now, NO_PUT_FAULT).0;
            && h !in d.files && h in d.ghosts && d.ghosts[|d.ghosts| - 1] == h
            && p.main == d.main + [h] && p.small == d.small && h !in p.ghosts
            && p.ghostLen == d.ghostLen - 1 && p.mainBytes == d.mainBytes + sz(h)
  {
    hide FirstFree, GhostMax, NoDup, Sum, Taken, Push;
    var i := FirstFree(c.rows, c.small);
    var d := After(cfg, c);
    TakenFacts(c.small, i, sz);
    EvictedFromSmallAccounted(cfg, c, i, sz);
    NewestIsLast(cfg, c, i);
    PushMembers(d.main, h);
    WithoutMembers(d.ghosts, h);
  }

  lemma NewestIsLast(cfg: Config, c: Cache, i: nat)
    requires i < |c.small| && c.small[i] in c.rows
    ensures var d := EvictedFromSmall(cfg, c, i);
            d.ghosts != [] && d.ghosts[|d.ghosts| - 1] == c.small[i] && c.small[i] in d.ghosts
  {
    hide Without;
  }

  /** A blob evicted from main is not remembered: storing it again starts over in small. */
  lemma ColdRoundTrip(cfg: Config, c: Cache, sz: Hash -> nat, h: Hash, now: Time)
    requires Accounted(c, sz) && NextEvent(cfg, c) == EvictMain(h)
    ensures var d := After(cfg, c);
            var p := Put(d, h, sz(h), now, NO_PUT_FAULT).0;
            && h !in d.files && h !in d.ghosts
            && p.small == d.small + [h] && p.main == d.main && p.ghosts == d.ghosts
            && p.smallBytes == d.smallBytes + sz(h)
  {
    hide FirstFree, GhostMax, NoDup, Sum, Taken, Push;
    var d := After(cfg, c);
    PushMembers(d.small, h);
  }

  ghost function StoredBytes(c: Cache, sz: Hash -> nat): nat { Sum(InOrder(c.files), sz) }

  /** The over-limit decision is taken on the true total size of the stored blobs. */
  lemma CountersAreStoredBytes(c: Cache, sz: Hash -> nat)
    requires Accounted(c, sz)
    ensures c.smallBytes + c.mainBytes == StoredBytes(c, sz)
    ensures c.smallLen + c.mainLen == |c.files|
  {
    hide InOrder;
    InOrderMembers(c.files);
    var q := c.small + c.main;
    SumConcat(c.small, c.main, sz);
    JoinNoDup(c.small, c.main);
    SumPermutation(q, InOrder(c.files), sz);
    SizeOfMembers(q, c.files);
  }

  // ---- Restart ----

  function SizeOf(hidden: set<Hash>, sz: Hash -> nat): Hash -> nat {
    h => if h in hidden then sz(h) else 0
  }

  lemma {:induction false} ReadableSum(q: seq<Hash>, rows: Rows, unreadable: set<Hash>, sz: Hash -> nat)
    requires forall h :: h in q ==> h in rows && rows[h].size == sz(h)
    ensures Sum(q, SizeIn(rows - unreadable)) == Sum(q, sz) - Sum(q, SizeOf(unreadable, sz))
    ensures (forall h :: h in q ==> h !in unreadable) ==> Sum(q, SizeOf(unreadable, sz)) == 0
  {
    if q != [] { ReadableSum(q[..|q| - 1], rows, unreadable, sz); }
  }

  /** Recomputing the counters from the persisted queues and rows misses exactly the bytes of the rows that
      cannot be read; when all can, it changes nothing, so a restart takes the same decisions. */
  lemma RestartIsTransparent(cfg: Config, c: Cache, unreadable: set<Hash>, sz: Hash -> nat)
    requires Counted(c, sz) && c.ghostLen == |c.ghosts|
    ensures Recomputed(c, unreadable)
         == c.(smallBytes := c.smallBytes - Sum(c.small, SizeOf(unreadable, sz)),
               mainBytes := c.mainBytes - Sum(c.main, SizeOf(unreadable, sz)))
    ensures (forall h :: h in c.small || h in c.main ==> h !in unreadable) ==>
              Recomputed(c, unreadable) == c && Over(cfg, Recomputed(c, unreadable)) == Over(cfg, c)
  {
    hide Sum, NoDup;
    ReadableSum(c.small, c.rows, unreadable, sz);
    ReadableSum(c.main, c.rows, unreadable, sz);
  }

  // ---- Collection ----

  /** The hashes whose deletion succeeds. */
  function Collected(hs: seq<Hash>, plan: DropPlan): seq<Hash> {
    if hs == [] then []
    else
      var n := |hs| - 1;
      var f := plan(hs[n]);
      Collected(hs[..n], plan) + if f.get || f.backend || f.row then [] else [hs[n]]
  }

  /** Those that lose their file. */
  function Unfiled(hs: seq<Hash>, plan: DropPlan): set<Hash> {
    set h | h in hs && !plan(h).get && !plan(h).backend
  }

  lemma {:induction false} CollectedMembers(hs: seq<Hash>, plan: DropPlan)
    ensures forall h :: h in Collected(hs, plan) <==> h in hs && !plan(h).get && !plan(h).backend && !plan(h).row
  {
    if hs != [] {
      var n := |hs| - 1;
      CollectedMembers(hs[..n], plan);
      assert hs == hs[..n] + [hs[n]];
    }
  }

  /** What one more hash of a list adds to the deleted rows and files. */
  lemma CollectedPush(hs: seq<Hash>, h: Hash, plan: DropPlan)
    ensures var f, done := plan(h), Collected(hs, plan);
            Collected(hs + [h], plan) == if f.get || f.backend || f.row then done else done + [h]
    ensures var f, gone := plan(h), Unfiled(hs, plan);
            Unfiled(hs + [h], plan) == if f.get || f.backend then gone else gone + {h}
  {
    assert (hs + [h])[..|hs|] == hs;
  }

  lemma ErasedTwice(rows: Rows, files: set<Hash>, a: set<Hash>, h: Hash)
    ensures rows - (a + {h}) == rows - a - {h} && files - (a + {h}) == files - a - {h}
  {
  }

  lemma {:induction false} CollectTakes(c: Cache, hs: seq<Hash>, plan: DropPlan)
    ensures var (d, t) := CollectAll(c, hs, plan);
            var done := Collected(hs, plan);
            && d.rows == c.rows - Elems(done) && d.files == c.files - Unfiled(hs, plan)
            && t.deleted == |done| && t.deleted + t.errors == |hs|
  {
    hide CollectBlob, Unfiled, Elems, Collected;
    if hs == [] {
      NothingErased(c, plan);
    } else {
      var n := |hs| - 1;
      var h := hs[n];
      var done := Collected(hs[..n], plan);
      CollectTakes(c, hs[..n], plan);
      CollectBlobFacts(CollectAll(c, hs[..n], plan).0, h, plan(h));
      assert hs == hs[..n] + [h];
      CollectedPush(hs[..n], h, plan);
      ElemsPush(done, h);
      ErasedTwice(c.rows, c.files, Elems(done), h);
      ErasedTwice(c.rows, c.files, Unfiled(hs[..n], plan), h);
    }
  }

  /** Whatever fails, a collection deletes exactly the rows and files it reached, and reports each blob as
      deleted completely or as an error. */
  lemma CollectErases(c: Cache, hs: seq<Hash>, plan: DropPlan)
    ensures var (d, t) := CollectAll(c, hs, plan);
            var done := Collected(hs, plan);
            && (forall h :: h in done <==> h in hs && !plan(h).get && !plan(h).backend && !plan(h).row)
            && d.rows == c.rows - Elems(done) && d.files == c.files - Unfiled(hs, plan)
            && t.deleted == |done| && t.deleted + t.errors == |hs|
  {
    hide Collected, CollectAll, Unfiled;
    CollectedMembers(hs, plan);
    CollectTakes(c, hs, plan);
  }

  lemma NothingErased(c: Cache, plan: DropPlan)
    ensures Collected([], plan) == []
    ensures c.rows - Elems([]) == c.rows && c.files - Unfiled([], plan) == c.files
  {
  }

  /** The bytes it reports are the sizes of the blobs it deleted completely. */
  lemma {:induction false} CollectReclaims(c: Cache, hs: seq<Hash>, plan: DropPlan)
    requires NoDup(hs)
    ensures CollectAll(c, hs, plan).1.bytes == Sum(Collected(hs, plan), SizeIn(c.rows))
  {
    hide CollectBlob, Sum, SizeIn;
    if hs == [] {
      NothingReclaimed(c);
    } else {
      var n := |hs| - 1;
      var h, f := hs[n], plan(hs[n]);
      var done := Collected(hs[..n], plan);
      LastIsNew(hs);
      CollectErases(c, hs[..n], plan);
      CollectReclaims(c, hs[..n], plan);
      CollectBlobFacts(CollectAll(c, hs[..n], plan).0, h, f);
      SameSize(c.rows, Elems(done), h);
      SumPush(done, h, SizeIn(c.rows));
      var (d, t) := CollectAll(c, hs[..n], plan);
      var size := CollectBlob(d, h, f).1;
      if f.get || f.backend || f.row {
        assert Collected(hs, plan) == done;
        assert CollectAll(c, hs, plan).1.bytes == t.bytes;
      } else {
        assert Collected(hs, plan) == done + [h];
        assert size == Some(SizeIn(c.rows)(h));
        assert CollectAll(c, hs, plan).1.bytes == t.bytes + size.value;
      }
    }
  }

  lemma SameSize(rows: Rows, gone: set<Hash>, h: Hash)
    requires h !in gone
    ensures SizeIn(rows - gone)(h) == SizeIn(rows)(h)
  {
  }

  lemma NothingReclaimed(c: Cache)
    ensures Sum([], SizeIn(c.rows)) == 0
  {
  }

  lemma CollectBlobFacts(c: Cache, h: Hash, f: DropFaults)
    ensures var (d, size) := CollectBlob(c, h, f);
            && d.rows == (if f.get || f.backend || f.row then c.rows else c.rows - {h})
            && d.files == (if f.get || f.backend then c.files else c.files - {h})
            && size == if f.get || f.backend || f.row then None else Some(SizeIn(c.rows)(h))
  {
  }

  lemma CollectedIsErased(c: Cache, h: Hash, f: DropFaults)
    requires f == NO_DROP_FAULT
    ensures CollectBlob(c, h, f).0 == Erased(c, h) == DeleteContent(c, h, f).0
  {
    hide Remove;
  }

  /** A collection without failures keeps the account. */
  lemma {:induction false} CollectAccounted(c: Cache, hs: seq<Hash>, plan: DropPlan, sz: Hash -> nat)
    requires Accounted(c, sz) && forall h :: plan(h) == NO_DROP_FAULT
    ensures Accounted(CollectAll(c, hs, plan).0, sz)
    decreases |hs|
  {
    hide Accounted, CollectBlob, Erased;
    if hs != [] {
      var n := |hs| - 1;
      var d := CollectAll(c, hs[..n], plan).0;
      CollectAccounted(c, hs[..n], plan, sz);
      CollectedIsErased(d, hs[n], plan(hs[n]));
      ErasedAccounted(d, hs[n], sz);
    }
  }

  /** In an accounted store the orphan phase changes nothing, whatever fails. */
  lemma SweepKeeps(c: Cache, n: nat, f: SweepFaults, sz: Hash -> nat)
    requires Accounted(c, sz)
    ensures SweepOrphans(c, n, f) == c
  {
    hide SweepOrphans, Counted, NoDup;
    SweepRestoresRows(c, n, f);
    SweepChangesFiles(c, n, f);
    assert SweepOrphans(c, n, f).files == c.files;
  }

  lemma SweepChangesFiles(c: Cache, n: int, f: SweepFaults)
    ensures SweepOrphans(c, n, f) == c.(files := SweepOrphans(c, n, f).files)
  {
  }
}
