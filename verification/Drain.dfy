/** What runs of the evictor achieve when no call fails: which entry a scan acts on, how much work the
    chain of runs does, where it comes to rest, and how many chances a popular blob gets. */
module Drain {
  import opened ByteStrings
  import opened Fifo
  import opened Blobs
  import opened Queues
  import opened CacheSteps

  /** The queues are disjoint and duplicate-free, every queued hash has a row, and the byte and length
      counters are exact. `sz` gives the size that a hash's content has. */
  ghost predicate Counted(c: Cache, sz: Hash -> nat) {
    && NoDup(c.small) && NoDup(c.main)
    && (forall h :: h in c.small ==> h in c.rows && h !in c.main)
    && (forall h :: h in c.main ==> h in c.rows)
    && (forall h :: h in c.rows ==> c.rows[h].size == sz(h))
    && c.smallBytes == Sum(c.small, sz) && c.mainBytes == Sum(c.main, sz)
    && c.smallLen == |c.small| && c.mainLen == |c.main|
  }

  // ---- Which entry a scan acts on ----

  /** The number of pinned entries before the oldest unpinned one, or the length when all are pinned. */
  function FirstFree(rows: map<Hash, BlobEntry>, q: seq<Hash>): (i: nat)
    ensures i <= |q|
    ensures forall j :: 0 <= j < i ==> Pinned(rows, q[j])
    ensures i < |q| ==> !Pinned(rows, q[i])
  {
    if q == [] || !Pinned(rows, q[0]) then 0 else 1 + FirstFree(rows, q[1..])
  }

  lemma FirstFreeAt(rows: map<Hash, BlobEntry>, q: seq<Hash>, i: nat)
    requires i < |q| && (forall j :: 0 <= j < i ==> Pinned(rows, q[j])) && !Pinned(rows, q[i])
    ensures FirstFree(rows, q) == i
  {
  }

  ghost predicate AllPinned(rows: map<Hash, BlobEntry>, q: seq<Hash>) {
    forall h :: h in q ==> Pinned(rows, h)
  }

  datatype Event = Promote(h: Hash) | EvictSmall(h: Hash) | SecondChance(h: Hash) | EvictMain(h: Hash) | Rest

  predicate SmallScans(cfg: Config, c: Cache) {
    c.smallBytes > SmallTarget(cfg) && FirstFree(c.rows, c.small) < |c.small|
  }

  /** What one run does: small first while it is over its target, then main. */
  function NextEvent(cfg: Config, c: Cache): Event {
    if !Over(cfg, c) then Rest
    else if SmallScans(cfg, c) then
      var h := c.small[FirstFree(c.rows, c.small)];
      if h in c.rows && c.rows[h].accessCount > 0 then Promote(h) else EvictSmall(h)
    else
      var i := FirstFree(c.rows, c.main);
      if i == |c.main| then Rest
      else if c.main[i] in c.rows && c.rows[c.main[i]].accessCount > 0 then SecondChance(c.main[i])
      else EvictMain(c.main[i])
  }

  // The four ways a run changes the state; the queue keeps its later entries, then the skipped pinned prefix.

  function Promoted(c: Cache, i: nat): Cache
    requires i < |c.small| && c.small[i] in c.rows
  {
    var h, size := c.small[i], c.rows[c.small[i]].size;
    c.(small := Taken(c.small, i), main := c.main + [h],
       smallBytes := c.smallBytes - size, mainBytes := c.mainBytes + size,
       smallLen := c.smallLen - 1, mainLen := c.mainLen + 1)
  }

  function EvictedFromSmall(cfg: Config, c: Cache, i: nat): Cache
    requires i < |c.small| && c.small[i] in c.rows
  {
    var h := c.small[i];
    WithGhost(cfg, c.(small := Taken(c.small, i), smallBytes := c.smallBytes - c.rows[h].size,
                      smallLen := c.smallLen - 1, rows := c.rows - {h}, files := c.files - {h}), h)
  }

  function GivenSecondChance(c: Cache, i: nat): Cache
    requires i < |c.main| && c.main[i] in c.rows && c.rows[c.main[i]].accessCount > 0
  {
    c.(main := Taken(c.main, i) + [c.main[i]], rows := Cooled(c.rows, c.main[i]))
  }

  function EvictedFromMain(c: Cache, i: nat): Cache
    requires i < |c.main| && c.main[i] in c.rows
  {
    var h := c.main[i];
    c.(main := Taken(c.main, i), mainBytes := c.mainBytes - c.rows[h].size,
       mainLen := c.mainLen - 1, rows := c.rows - {h}, files := c.files - {h})
  }

  /** The state after one run. */
  function After(cfg: Config, c: Cache): Cache
    requires forall h :: h in c.small || h in c.main ==> h in c.rows
  {
    match NextEvent(cfg, c)
    case Rest => c
    case Promote(_) => Promoted(c, FirstFree(c.rows, c.small))
    case EvictSmall(_) => EvictedFromSmall(cfg, c, FirstFree(c.rows, c.small))
    case SecondChance(_) => GivenSecondChance(c, FirstFree(c.rows, c.main))
    case EvictMain(_) => EvictedFromMain(c, FirstFree(c.rows, c.main))
  }

  function WithGhost(cfg: Config, c: Cache, h: Hash): Cache {
    var max := GhostMax(cfg, c);
    c.(ghosts := Newest(Push(c.ghosts, h), max), ghostLen := if c.ghostLen + 1 > max then max else c.ghostLen + 1)
  }

  // ---- The scan loop ----

  lemma SkipSmall(c: Cache, i: nat)
    requires NoDup(c.small) && i < |c.small| && Pinned(c.rows, c.small[i])
    ensures EvictFromSmall(c.(small := Rotated(c.small, i)), NO_FAULT)
         == Outcome(c.(small := Rotated(c.small, i + 1)), Skipped)
  {
    RotatedPop(c.small, i);
  }

  lemma SkipMain(c: Cache, i: nat)
    requires NoDup(c.main) && i < |c.main| && Pinned(c.rows, c.main[i])
    ensures EvictFromMain(c.(main := Rotated(c.main, i)), NO_FAULT)
         == Outcome(c.(main := Rotated(c.main, i + 1)), Skipped)
  {
    RotatedPop(c.main, i);
  }

  /** What a scan of small that found its entry hands over. */
  function SmallOutcome(c: Cache, i: nat): Outcome
    requires i < |c.small| && c.small[i] in c.rows
  {
    var h := c.small[i];
    var size := c.rows[h].size;
    var c' := c.(small := Taken(c.small, i), smallBytes := c.smallBytes - size, smallLen := c.smallLen - 1);
    if c.rows[h].accessCount > 0 then
      Outcome(c'.(main := Push(c.main, h), mainBytes := c.mainBytes + size, mainLen := c.mainLen + 1), Acted)
    else Outcome(c', Evicting(Pending(Small, h, size, true)))
  }

  function MainOutcome(c: Cache, i: nat): Outcome
    requires i < |c.main| && c.main[i] in c.rows
  {
    var h := c.main[i];
    if c.rows[h].accessCount > 0 then
      Outcome(c.(main := Taken(c.main, i) + [h], rows := Cooled(c.rows, h)), Acted)
    else
      Outcome(c.(main := Taken(c.main, i), mainBytes := c.mainBytes - c.rows[h].size, mainLen := c.mainLen - 1),
              Evicting(Pending(Main, h, c.rows[h].size, false)))
  }

  lemma ActSmall(c: Cache, i: nat)
    requires NoDup(c.small) && i < |c.small| && c.small[i] in c.rows && !Pinned(c.rows, c.small[i])
    ensures EvictFromSmall(c.(small := Rotated(c.small, i)), NO_FAULT) == SmallOutcome(c, i)
    ensures !SmallOutcome(c, i).d.Skipped?
  {
    RotatedPop(c.small, i);
  }

  lemma ActMain(c: Cache, i: nat)
    requires NoDup(c.main) && i < |c.main| && c.main[i] in c.rows && !Pinned(c.rows, c.main[i])
    ensures EvictFromMain(c.(main := Rotated(c.main, i)), NO_FAULT) == MainOutcome(c, i)
    ensures !MainOutcome(c, i).d.Skipped?
  {
    RotatedPop(c.main, i);
    TakenMembers(c.main, i);
    PushMembers(Taken(c.main, i), c.main[i]);
  }

  /** A scan of small acts on the oldest unpinned entry and leaves the later entries followed by the
      skipped pinned prefix in order; a scan of an all-pinned queue restores order and counters. */
  lemma {:induction false} ScanRotatesSmall(cfg: Config, c: Cache, sz: Hash -> nat, i: nat, plan: FaultPlan)
    requires Counted(c, sz) && i <= FirstFree(c.rows, c.small)
    requires forall n :: plan(n) == NO_FAULT
    ensures Scan(cfg, c.(small := Rotated(c.small, i)), Small, |c.small| - i, plan)
         == if Over(cfg, c) && SmallScans(cfg, c) then SmallOutcome(c, FirstFree(c.rows, c.small))
            else if Over(cfg, c) && c.smallBytes > SmallTarget(cfg) then Outcome(c, Idle)
            else Outcome(c.(small := Rotated(c.small, i)), Idle)
    decreases |c.small| - i
  {
    hide EvictFromSmall, EvictFromMain, SmallOutcome;
    var ci := c.(small := Rotated(c.small, i));
    if i == |c.small| {
      assert Rotated(c.small, i) == c.small;
    } else if !ScanStops(cfg, ci, Small) {
      assert plan(|c.small| - i) == NO_FAULT;
      if Pinned(c.rows, c.small[i]) {
        SkipSmall(c, i);
        ScanRotatesSmall(cfg, c, sz, i + 1, plan);
      } else {
        FirstFreeAt(c.rows, c.small, i);
        ActSmall(c, i);
      }
    }
  }

  lemma {:induction false} ScanRotatesMain(cfg: Config, c: Cache, sz: Hash -> nat, i: nat, plan: FaultPlan)
    requires Counted(c, sz) && i <= FirstFree(c.rows, c.main)
    requires forall n :: plan(n) == NO_FAULT
    ensures Scan(cfg, c.(main := Rotated(c.main, i)), Main, |c.main| - i, plan)
         == if Over(cfg, c) && FirstFree(c.rows, c.main) < |c.main| then MainOutcome(c, FirstFree(c.rows, c.main))
            else if Over(cfg, c) then Outcome(c, Idle)
            else Outcome(c.(main := Rotated(c.main, i)), Idle)
    decreases |c.main| - i
  {
    hide EvictFromSmall, EvictFromMain, MainOutcome;
    var ci := c.(main := Rotated(c.main, i));
    if i == |c.main| {
      assert Rotated(c.main, i) == c.main;
    } else if !ScanStops(cfg, ci, Main) {
      assert plan(|c.main| - i) == NO_FAULT;
      if Pinned(c.rows, c.main[i]) {
        SkipMain(c, i);
        ScanRotatesMain(cfg, c, sz, i + 1, plan);
      } else {
        FirstFreeAt(c.rows, c.main, i);
        ActMain(c, i);
      }
    }
  }

  ghost function RunOf(cfg: Config, c: Cache): Run
    requires forall h :: h in c.small || h in c.main ==> h in c.rows
  {
    var acted := NextEvent(cfg, c) != Rest;
    Run(After(cfg, c), acted, acted && Over(cfg, After(cfg, c)))
  }

  lemma SettleSmall(cfg: Config, c: Cache, sz: Hash -> nat, f: RunFaults)
    requires Counted(c, sz) && Quiet(f) && Over(cfg, c) && SmallScans(cfg, c)
    ensures Settle(cfg, SmallOutcome(c, FirstFree(c.rows, c.small)), f) == RunOf(cfg, c)
  {
    hide FirstFree;
    var i := FirstFree(c.rows, c.small);
    PushMembers(c.main, c.small[i]);
  }

  lemma SettleMain(cfg: Config, c: Cache, sz: Hash -> nat, f: RunFaults)
    requires Counted(c, sz) && Quiet(f) && Over(cfg, c) && !SmallScans(cfg, c)
    requires FirstFree(c.rows, c.main) < |c.main|
    ensures Settle(cfg, MainOutcome(c, FirstFree(c.rows, c.main)), f) == RunOf(cfg, c)
  {
    hide FirstFree;
  }

  /** One failure-free run does exactly the next event, and signals itself while it makes progress. */
  lemma RunDoesNextEvent(cfg: Config, c: Cache, sz: Hash -> nat, f: RunFaults)
    requires Counted(c, sz) && Quiet(f)
    ensures MaybeEvict(cfg, c, f)
         == Run(After(cfg, c), NextEvent(cfg, c) != Rest, NextEvent(cfg, c) != Rest && Over(cfg, After(cfg, c)))
  {
    hide EvictFromSmall, EvictFromMain, Scan, FirstFree, SmallOutcome, MainOutcome;
    if Over(cfg, c) {
      assert Rotated(c.small, 0) == c.small && Rotated(c.main, 0) == c.main;
      assert c.(small := c.small) == c && c.(main := c.main) == c;
      ScanRotatesSmall(cfg, c, sz, 0, f.small);
      if SmallScans(cfg, c) {
        SettleSmall(cfg, c, sz, f);
        assert !SmallOutcome(c, FirstFree(c.rows, c.small)).d.Idle? by { NotIdle(c); }
      } else {
        ScanRotatesMain(cfg, c, sz, 0, f.main);
        if FirstFree(c.rows, c.main) < |c.main| {
          SettleMain(cfg, c, sz, f);
        }
      }
    }
  }

  lemma NotIdle(c: Cache)
    ensures forall i: nat :: i < |c.small| && c.small[i] in c.rows ==> !SmallOutcome(c, i).d.Idle?
  {
  }

  /** Restoring a candidate whose file could not be deleted undoes its selection: counters, rows and files
      are as before, and the candidate now stands at the newest end of its queue. */
  lemma RestoreUndoesSelection(c: Cache, sz: Hash -> nat, queue: QueueName, row: bool)
    requires Counted(c, sz) && EvictFrom(c, queue, NO_FAULT).d.Evicting?
    ensures var o := EvictFrom(c, queue, NO_FAULT);
            var (d, ok) := DeleteFromBackend(o.c, o.d.pending.hash, DeleteFaults(true, row));
            !ok && Restore(d, o.d.pending, false)
                   == if queue == Small then c.(small := Rotated(c.small, 1)) else c.(main := Rotated(c.main, 1))
  {
    if queue == Small {
      RotatedPop(c.small, 0);
      assert Rotated(c.small, 0) == c.small;
      TakenMembers(c.small, 0);
    } else {
      RotatedPop(c.main, 0);
      assert Rotated(c.main, 0) == c.main;
      TakenMembers(c.main, 0);
    }
  }

  // ---- Invariance ----

  lemma PromotedCounted(c: Cache, i: nat, sz: Hash -> nat)
    requires Counted(c, sz) && i < |c.small|
    ensures Counted(Promoted(c, i), sz)
  {
    hide NoDup, Sum, Taken;
    TakenFacts(c.small, i, sz);
    SumPush(c.main, c.small[i], sz);
    PushMembers(c.main, c.small[i]);
    PushNoDup(c.main, c.small[i]);
  }

  lemma EvictedFromSmallCounted(cfg: Config, c: Cache, i: nat, sz: Hash -> nat)
    requires Counted(c, sz) && i < |c.small|
    ensures Counted(EvictedFromSmall(cfg, c, i), sz)
  {
    hide GhostMax;
    TakenFacts(c.small, i, sz);
  }

  lemma GivenSecondChanceCounted(c: Cache, i: nat, sz: Hash -> nat)
    requires Counted(c, sz) && i < |c.main| && c.rows[c.main[i]].accessCount > 0
    ensures Counted(GivenSecondChance(c, i), sz)
  {
    hide NoDup, Sum, Taken;
    TakenFacts(c.main, i, sz);
    SumPush(Taken(c.main, i), c.main[i], sz);
    PushMembers(Taken(c.main, i), c.main[i]);
    PushNoDup(Taken(c.main, i), c.main[i]);
  }

  lemma EvictedFromMainCounted(c: Cache, i: nat, sz: Hash -> nat)
    requires Counted(c, sz) && i < |c.main|
    ensures Counted(EvictedFromMain(c, i), sz)
  {
    TakenFacts(c.main, i, sz);
  }

  /** A run keeps the queues disjoint, backed by rows, and the counters exact. */
  lemma AfterKeepsCounted(cfg: Config, c: Cache, sz: Hash -> nat)
    requires Counted(c, sz)
    ensures Counted(After(cfg, c), sz)
  {
    hide FirstFree, Promoted, EvictedFromSmall, GivenSecondChance, EvictedFromMain;
    match NextEvent(cfg, c)
    case Rest =>
    case Promote(h) => PromotedCounted(c, FirstFree(c.rows, c.small), sz);
    case EvictSmall(h) => EvictedFromSmallCounted(cfg, c, FirstFree(c.rows, c.small), sz);
    case SecondChance(h) => GivenSecondChanceCounted(c, FirstFree(c.rows, c.main), sz);
    case EvictMain(h) => EvictedFromMainCounted(c, FirstFree(c.rows, c.main), sz);
  }

  lemma TakenFacts(q: seq<Hash>, i: nat, w: Hash -> nat)
    requires i < |q| && NoDup(q)
    ensures NoDup(Taken(q, i)) && |Taken(q, i)| == |q| - 1
    ensures forall y :: y in Taken(q, i) <==> y in q && y != q[i]
    ensures Sum(q, w) == Sum(Taken(q, i), w) + w(q[i])
  {
    TakenMembers(q, i);
    TakenNoDup(q, i);
    TakenSum(q, i, w);
  }

  // ---- Termination ----

  function SmallWeight(rows: map<Hash, BlobEntry>): Hash -> nat {
    h => if h in rows then rows[h].accessCount + 2 else 2
  }

  function MainWeight(rows: map<Hash, BlobEntry>): Hash -> nat {
    h => if h in rows then rows[h].accessCount + 1 else 1
  }

  /** The sum over small of AccessCount + 2 plus the sum over main of AccessCount + 1. */
  ghost function Potential(c: Cache): nat {
    Sum(c.small, SmallWeight(c.rows)) + Sum(c.main, MainWeight(c.rows))
  }

  lemma PromotedPotential(c: Cache, i: nat)
    requires i < |c.small| && NoDup(c.small) && c.small[i] in c.rows
    ensures Potential(Promoted(c, i)) < Potential(c)
  {
    TakenFacts(c.small, i, SmallWeight(c.rows));
    SumPush(c.main, c.small[i], MainWeight(c.rows));
  }

  /** Dropping the row of a hash that is in neither queue leaves the weights of both alone. */
  lemma DroppedRowPotential(c: Cache, h: Hash)
    requires h !in c.small && h !in c.main
    ensures Potential(c.(rows := c.rows - {h})) == Potential(c)
  {
    SumSame(c.small, SmallWeight(c.rows), SmallWeight(c.rows - {h}));
    SumSame(c.main, MainWeight(c.rows), MainWeight(c.rows - {h}));
  }

  lemma EvictedFromSmallPotential(cfg: Config, c: Cache, i: nat)
    requires i < |c.small| && NoDup(c.small) && c.small[i] in c.rows && c.small[i] !in c.main
    ensures Potential(EvictedFromSmall(cfg, c, i)) < Potential(c)
  {
    hide GhostMax;
    TakenFacts(c.small, i, SmallWeight(c.rows));
    DroppedRowPotential(c.(small := Taken(c.small, i)), c.small[i]);
  }

  lemma GivenSecondChancePotential(c: Cache, i: nat)
    requires i < |c.main| && NoDup(c.main) && c.main[i] in c.rows && c.rows[c.main[i]].accessCount > 0
    requires c.main[i] !in c.small
    ensures Potential(GivenSecondChance(c, i)) < Potential(c)
  {
    var h := c.main[i];
    var rows' := Cooled(c.rows, h);
    TakenFacts(c.main, i, MainWeight(c.rows));
    SumPush(Taken(c.main, i), h, MainWeight(rows'));
    SumSame(Taken(c.main, i), MainWeight(c.rows), MainWeight(rows'));
    SumSame(c.small, SmallWeight(c.rows), SmallWeight(rows'));
  }

  lemma EvictedFromMainPotential(c: Cache, i: nat)
    requires i < |c.main| && NoDup(c.main) && c.main[i] in c.rows && c.main[i] !in c.small
    ensures Potential(EvictedFromMain(c, i)) < Potential(c)
  {
    TakenFacts(c.main, i, MainWeight(c.rows));
    DroppedRowPotential(c.(main := Taken(c.main, i)), c.main[i]);
  }

  /** Every run that acts lowers the potential, so a chain of self-signalled runs stops within it. */
  lemma ActingLowersPotential(cfg: Config, c: Cache, sz: Hash -> nat)
    requires Counted(c, sz) && NextEvent(cfg, c) != Rest
    ensures Potential(After(cfg, c)) < Potential(c)
  {
    hide FirstFree, Promoted, EvictedFromSmall, GivenSecondChance, EvictedFromMain, Potential;
    match NextEvent(cfg, c)
    case Promote(h) => PromotedPotential(c, FirstFree(c.rows, c.small));
    case EvictSmall(h) => EvictedFromSmallPotential(cfg, c, FirstFree(c.rows, c.small));
    case SecondChance(h) => GivenSecondChancePotential(c, FirstFree(c.rows, c.main));
    case EvictMain(h) => EvictedFromMainPotential(c, FirstFree(c.rows, c.main));
  }

  /** The state after a chain of runs that signal themselves. */
  ghost function Drained(cfg: Config, c: Cache, sz: Hash -> nat): Cache
    requires Counted(c, sz)
    decreases Potential(c)
  {
    if NextEvent(cfg, c) == Rest then c
    else
      AfterKeepsCounted(cfg, c, sz);
      ActingLowersPotential(cfg, c, sz);
      Drained(cfg, After(cfg, c), sz)
  }

  /** The decisions of that chain, in order. */
  ghost function Trace(cfg: Config, c: Cache, sz: Hash -> nat): seq<Event>
    requires Counted(c, sz)
    decreases Potential(c)
  {
    if NextEvent(cfg, c) == Rest then []
    else
      AfterKeepsCounted(cfg, c, sz);
      ActingLowersPotential(cfg, c, sz);
      [NextEvent(cfg, c)] + Trace(cfg, After(cfg, c), sz)
  }

  /** The chain stops within the potential of the state it starts in. */
  lemma {:induction false} TraceWithinPotential(cfg: Config, c: Cache, sz: Hash -> nat)
    requires Counted(c, sz)
    ensures |Trace(cfg, c, sz)| <= Potential(c)
    decreases Potential(c)
  {
    hide After, NextEvent, Potential;
    if NextEvent(cfg, c) != Rest {
      AfterKeepsCounted(cfg, c, sz);
      ActingLowersPotential(cfg, c, sz);
      TraceWithinPotential(cfg, After(cfg, c), sz);
    }
  }

  // ---- The size at rest ----

  function PinnedSize(rows: map<Hash, BlobEntry>, sz: Hash -> nat): Hash -> nat {
    h => if Pinned(rows, h) then sz(h) else 0
  }

  ghost function PinnedBytes(c: Cache, q: seq<Hash>, sz: Hash -> nat): nat {
    Sum(q, PinnedSize(c.rows, sz))
  }

  ghost function Max(a: int, b: int): int { if a < b then b else a }

  lemma AllFreeOrPinned(rows: map<Hash, BlobEntry>, q: seq<Hash>, sz: Hash -> nat)
    requires FirstFree(rows, q) == |q|
    ensures Sum(q, sz) == Sum(q, PinnedSize(rows, sz))
  {
    hide FirstFree;
    SumSame(q, sz, PinnedSize(rows, sz));
  }

  /** Being over the target, a truncated quotient, is being over the exact share. */
  lemma OverTarget(cfg: Config, bytes: int)
    ensures bytes > SmallTarget(cfg) <==> bytes * 100 > cfg.maxSize * cfg.smallPercent
  {
    var share := cfg.maxSize * cfg.smallPercent;
    assert share == 100 * (share / 100) + share % 100;
  }

  lemma TargetBelowMax(cfg: Config)
    requires Normal(cfg)
    ensures SmallTarget(cfg) <= cfg.maxSize
  {
    assert cfg.maxSize * cfg.smallPercent <= cfg.maxSize * 100;
  }

  /** Where a run has nothing to do, the total is within the limit or within what pinned blobs explain:
      the pinned bytes of main plus the larger of small's target and its pinned bytes. */
  lemma RestIsBounded(cfg: Config, c: Cache, sz: Hash -> nat)
    requires Normal(cfg) && Counted(c, sz) && NextEvent(cfg, c) == Rest
    ensures c.smallBytes + c.mainBytes
         <= Max(cfg.maxSize, PinnedBytes(c, c.main, sz)
                             + Max(PinnedBytes(c, c.small, sz), cfg.maxSize * cfg.smallPercent / 100))
    ensures PinnedBytes(c, c.main, sz) == PinnedBytes(c, c.small, sz) == 0 ==> c.smallBytes + c.mainBytes <= cfg.maxSize
  {
    hide FirstFree;
    TargetBelowMax(cfg);
    if Over(cfg, c) {
      AllFreeOrPinned(c.rows, c.main, sz);
      if c.smallBytes > SmallTarget(cfg) {
        AllFreeOrPinned(c.rows, c.small, sz);
      }
    }
  }

  lemma FirstFreeAll(rows: Rows, q: seq<Hash>)
    ensures FirstFree(rows, q) == |q| <==> AllPinned(rows, q)
  {
    var i := FirstFree(rows, q);
    if i < |q| { assert q[i] in q && !Pinned(rows, q[i]); }
  }

  /** The evictor rests over the limit exactly when all of main is pinned and small is at or under its
      target or all pinned. */
  lemma RestExactly(cfg: Config, c: Cache)
    ensures NextEvent(cfg, c) == Rest
        <==> c.smallBytes + c.mainBytes <= cfg.maxSize
             || (AllPinned(c.rows, c.main)
                 && (c.smallBytes * 100 <= cfg.maxSize * cfg.smallPercent || AllPinned(c.rows, c.small)))
  {
    hide FirstFree, AllPinned;
    OverTarget(cfg, c.smallBytes);
    FirstFreeAll(c.rows, c.small);
    FirstFreeAll(c.rows, c.main);
  }

  // Pinned bytes do not change during a chain of runs, since no run acts on a pinned entry.

  ghost predicate SamePinned(c: Cache, d: Cache, sz: Hash -> nat) {
    && PinnedBytes(d, d.small, sz) == PinnedBytes(c, c.small, sz)
    && PinnedBytes(d, d.main, sz) == PinnedBytes(c, c.main, sz)
  }

  lemma PromotedSamePinned(c: Cache, i: nat, sz: Hash -> nat)
    requires i < |c.small| && NoDup(c.small) && c.small[i] in c.rows && !Pinned(c.rows, c.small[i])
    ensures SamePinned(c, Promoted(c, i), sz)
  {
    hide PinnedSize, NoDup, Taken, Sum;
    var w := PinnedSize(c.rows, sz);
    PinnedSizeOf(c.rows, sz, c.small[i]);
    TakenFacts(c.small, i, w);
    SumPush(c.main, c.small[i], w);
  }

  lemma RowChangeSamePinned(q: seq<Hash>, before: Rows, after: Rows, sz: Hash -> nat)
    requires forall h :: h in q ==> (Pinned(before, h) <==> Pinned(after, h))
    ensures Sum(q, PinnedSize(before, sz)) == Sum(q, PinnedSize(after, sz))
  {
    SumSame(q, PinnedSize(before, sz), PinnedSize(after, sz));
  }

  lemma EvictedFromSmallSamePinned(cfg: Config, c: Cache, i: nat, sz: Hash -> nat)
    requires i < |c.small| && NoDup(c.small) && c.small[i] in c.rows && !Pinned(c.rows, c.small[i])
    ensures SamePinned(c, EvictedFromSmall(cfg, c, i), sz)
  {
    hide GhostMax, PinnedSize, NoDup, Taken, Sum;
    PinnedSizeOf(c.rows, sz, c.small[i]);
    TakenFacts(c.small, i, PinnedSize(c.rows, sz));
    RowChangeSamePinned(Taken(c.small, i), c.rows, c.rows - {c.small[i]}, sz);
    RowChangeSamePinned(c.main, c.rows, c.rows - {c.small[i]}, sz);
  }

  lemma GivenSecondChanceSamePinned(c: Cache, i: nat, sz: Hash -> nat)
    requires i < |c.main| && NoDup(c.main) && c.main[i] in c.rows && !Pinned(c.rows, c.main[i])
    requires c.rows[c.main[i]].accessCount > 0
    ensures SamePinned(c, GivenSecondChance(c, i), sz)
  {
    hide PinnedSize, NoDup, Taken, Sum;
    var rows' := Cooled(c.rows, c.main[i]);
    PinnedSizeOf(c.rows, sz, c.main[i]);
    TakenFacts(c.main, i, PinnedSize(c.rows, sz));
    SumPush(Taken(c.main, i), c.main[i], PinnedSize(c.rows, sz));
    RowChangeSamePinned(Taken(c.main, i) + [c.main[i]], c.rows, rows', sz);
    RowChangeSamePinned(c.small, c.rows, rows', sz);
  }

  lemma EvictedFromMainSamePinned(c: Cache, i: nat, sz: Hash -> nat)
    requires i < |c.main| && NoDup(c.main) && c.main[i] in c.rows && !Pinned(c.rows, c.main[i])
    ensures SamePinned(c, EvictedFromMain(c, i), sz)
  {
    hide PinnedSize, NoDup, Taken, Sum;
    PinnedSizeOf(c.rows, sz, c.main[i]);
    TakenFacts(c.main, i, PinnedSize(c.rows, sz));
    RowChangeSamePinned(Taken(c.main, i), c.rows, c.rows - {c.main[i]}, sz);
    RowChangeSamePinned(c.small, c.rows, c.rows - {c.main[i]}, sz);
  }

  lemma PinnedSizeOf(rows: Rows, sz: Hash -> nat, h: Hash)
    ensures PinnedSize(rows, sz)(h) == if Pinned(rows, h) then sz(h) else 0
  {
  }

  lemma AfterSamePinned(cfg: Config, c: Cache, sz: Hash -> nat)
    requires Counted(c, sz)
    ensures SamePinned(c, After(cfg, c), sz)
  {
    hide Promoted, EvictedFromSmall, GivenSecondChance, EvictedFromMain, PinnedBytes;
    match NextEvent(cfg, c)
    case Rest =>
    case Promote(_) => PromotedSamePinned(c, FirstFree(c.rows, c.small), sz);
    case EvictSmall(_) => EvictedFromSmallSamePinned(cfg, c, FirstFree(c.rows, c.small), sz);
    case SecondChance(_) => GivenSecondChanceSamePinned(c, FirstFree(c.rows, c.main), sz);
    case EvictMain(_) => EvictedFromMainSamePinned(c, FirstFree(c.rows, c.main), sz);
  }

  /** A chain of runs ends at rest, with exact counters, within a bound that the pinned blobs of the state
      it starts in determine; within the limit when none is pinned. */
  lemma {:induction false} DrainEndsBounded(cfg: Config, c: Cache, sz: Hash -> nat)
    requires Normal(cfg) && Counted(c, sz)
    ensures var d := Drained(cfg, c, sz);
            && Counted(d, sz) && NextEvent(cfg, d) == Rest && SamePinned(c, d, sz)
            && d.smallBytes + d.mainBytes
               <= Max(cfg.maxSize, PinnedBytes(c, c.main, sz)
                                   + Max(PinnedBytes(c, c.small, sz), cfg.maxSize * cfg.smallPercent / 100))
            && (PinnedBytes(c, c.main, sz) == PinnedBytes(c, c.small, sz) == 0 ==>
                  d.smallBytes + d.mainBytes <= cfg.maxSize)
    decreases Potential(c)
  {
    hide After, NextEvent, Potential, PinnedBytes, NoDup, Sum;
    if NextEvent(cfg, c) == Rest {
      RestIsBounded(cfg, c, sz);
    } else {
      AfterKeepsCounted(cfg, c, sz);
      ActingLowersPotential(cfg, c, sz);
      AfterSamePinned(cfg, c, sz);
      DrainEndsBounded(cfg, After(cfg, c), sz);
    }
  }

  // ---- How many chances a blob gets ----

  function Copies(e: Event, n: nat): seq<Event> { if n == 0 then [] else [e] + Copies(e, n - 1) }

  /** The decisions that await an untouched, unpinned blob: from small, one promotion if it was ever
      accessed; in main, one second chance for each access counted, and then eviction. */
  function Fate(c: Cache, h: Hash): seq<Event> {
    var a := if h in c.rows then c.rows[h].accessCount else 0;
    if h in c.small && a == 0 then [EvictSmall(h)]
    else if h in c.small then [Promote(h)] + Copies(SecondChance(h), a) + [EvictMain(h)]
    else if h in c.main then Copies(SecondChance(h), a) + [EvictMain(h)]
    else []
  }

  function About(trace: seq<Event>, h: Hash): seq<Event> {
    if trace == [] then []
    else (if !trace[0].Rest? && trace[0].h == h then [trace[0]] else []) + About(trace[1..], h)
  }

  function Happened(e: Event, h: Hash): seq<Event>
    requires !e.Rest?
  {
    if e.h == h then [e] else []
  }

  lemma PromotedFate(c: Cache, i: nat, h: Hash)
    requires i < |c.small| && NoDup(c.small) && c.small[i] in c.rows && c.small[i] !in c.main
    requires c.rows[c.small[i]].accessCount > 0
    ensures Fate(c, h) == Happened(Promote(c.small[i]), h) + Fate(Promoted(c, i), h)
  {
    TakenMembers(c.small, i);
  }

  lemma EvictedFromSmallFate(cfg: Config, c: Cache, i: nat, h: Hash)
    requires i < |c.small| && NoDup(c.small) && c.small[i] in c.rows && c.small[i] !in c.main
    requires c.rows[c.small[i]].accessCount == 0
    ensures Fate(c, h) == Happened(EvictSmall(c.small[i]), h) + Fate(EvictedFromSmall(cfg, c, i), h)
  {
    TakenMembers(c.small, i);
  }

  lemma GivenSecondChanceFate(c: Cache, i: nat, h: Hash)
    requires i < |c.main| && NoDup(c.main) && c.main[i] in c.rows && c.main[i] !in c.small
    requires c.rows[c.main[i]].accessCount > 0
    ensures Fate(c, h) == Happened(SecondChance(c.main[i]), h) + Fate(GivenSecondChance(c, i), h)
  {
    TakenMembers(c.main, i);
  }

  lemma EvictedFromMainFate(c: Cache, i: nat, h: Hash)
    requires i < |c.main| && NoDup(c.main) && c.main[i] in c.rows && c.main[i] !in c.small
    requires c.rows[c.main[i]].accessCount == 0
    ensures Fate(c, h) == Happened(EvictMain(c.main[i]), h) + Fate(EvictedFromMain(c, i), h)
  {
    TakenMembers(c.main, i);
  }

  lemma FateStep(cfg: Config, c: Cache, sz: Hash -> nat, h: Hash)
    requires Counted(c, sz) && NextEvent(cfg, c) != Rest
    ensures Fate(c, h) == Happened(NextEvent(cfg, c), h) + Fate(After(cfg, c), h)
  {
    hide FirstFree, Fate, Promoted, EvictedFromSmall, GivenSecondChance, EvictedFromMain;
    match NextEvent(cfg, c)
    case Promote(_) => PromotedFate(c, FirstFree(c.rows, c.small), h);
    case EvictSmall(_) => EvictedFromSmallFate(cfg, c, FirstFree(c.rows, c.small), h);
    case SecondChance(_) => GivenSecondChanceFate(c, FirstFree(c.rows, c.main), h);
    case EvictMain(_) => EvictedFromMainFate(c, FirstFree(c.rows, c.main), h);
  }

  /** In a chain of runs without touches, what happens to a blob is a prefix of its fate: it is promoted
      at most once and survives at most AccessCount second chances. */
  lemma {:induction false} TraceFollowsFate(cfg: Config, c: Cache, sz: Hash -> nat, h: Hash)
    requires Counted(c, sz)
    ensures About(Trace(cfg, c, sz), h) + Fate(Drained(cfg, c, sz), h) == Fate(c, h)
    decreases Potential(c)
  {
    hide After, NextEvent, Potential, Fate;
    if NextEvent(cfg, c) != Rest {
      AfterKeepsCounted(cfg, c, sz);
      ActingLowersPotential(cfg, c, sz);
      TraceFollowsFate(cfg, After(cfg, c), sz, h);
      FateStep(cfg, c, sz, h);
      assert Trace(cfg, c, sz)[1..] == Trace(cfg, After(cfg, c), sz);
    }
  }
}
