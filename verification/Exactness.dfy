/** When the evictor's counters are exact and not only high enough, under every interleaving: the two queues
    and the ghost set. */
module Exactness {
  import opened Fifo
  import opened ByteStrings
  import opened Queues
  import opened CacheSteps
  import opened Interleaving

  // ---- Exact byte and length counters ----

  ghost predicate Tight(c: Cache, sz: Hash -> nat) {
    && NoDup(c.small) && NoDup(c.main)
    && c.smallBytes == Sum(c.small, sz) && c.mainBytes == Sum(c.main, sz)
    && c.smallLen == |c.small| && c.mainLen == |c.main|
  }

  ghost predicate Apart(c: Cache) { forall h :: h in c.small ==> h !in c.main }

  function EntriesOf(c: Cache, queue: QueueName): seq<Hash> { if queue == Small then c.small else c.main }

  /** What a selection with these failures does to an entry that it pops: an entry without a row, and a
      re-queue that fails after the length was lowered, leave the bytes counted; a re-queue that fails where
      the length is raised all the same leaves both. */
  predicate KeepsCount(c: Cache, queue: QueueName, f: EvictFaults, h: Hash, sz: Hash -> nat) {
    if f.get then !f.repush
    else if h !in c.rows then sz(h) == 0
    else if c.rows[h].refCount > 0 then !f.push || sz(h) == 0
    else if c.rows[h].accessCount == 0 then true
    else if queue == Small then !f.push || !f.repush
    else if f.put then !f.repush
    else !f.push || sz(h) == 0
  }

  predicate SelectionCounts(c: Cache, queue: QueueName, f: EvictFaults, sz: Hash -> nat) {
    var q := EntriesOf(c, queue);
    f.pop || q == [] || KeepsCount(c, queue, f, q[0], sz)
  }

  lemma SelectFromSmallExactly(c: Cache, f: EvictFaults, sz: Hash -> nat)
    requires Tight(c, sz) && Apart(c) && SizesFixed(c.rows, sz)
    ensures var o := EvictFromSmall(c, f);
            && Apart(o.c) && (Tight(o.c, sz) <==> SelectionCounts(c, Small, f, sz))
            && (o.d.Evicting? ==> o.d.pending.hash !in o.c.small && o.d.pending.hash !in o.c.main)
  {
    hide Push, Without, Sum, NoDup;
    if c.small != [] {
      var h := c.small[0];
      PopFacts(c.small, sz);
      PushFacts(c.small[1..], h, sz);
      PushFacts(c.main, h, sz);
      PushMembers(c.small[1..], h);
      PushMembers(c.main, h);
    }
  }

  lemma SelectFromMainExactly(c: Cache, f: EvictFaults, sz: Hash -> nat)
    requires Tight(c, sz) && Apart(c) && SizesFixed(c.rows, sz)
    ensures var o := EvictFromMain(c, f);
            && Apart(o.c) && (Tight(o.c, sz) <==> SelectionCounts(c, Main, f, sz))
            && (o.d.Evicting? ==> o.d.pending.hash !in o.c.small && o.d.pending.hash !in o.c.main)
  {
    hide Push, Without, Sum, NoDup;
    if c.main != [] {
      var h := c.main[0];
      PopFacts(c.main, sz);
      PushFacts(c.main[1..], h, sz);
      PushMembers(c.main[1..], h);
    }
  }

  /** From exact counters over disjoint queues, a selection with any failures keeps them exact if and only if
      it does not lose an entry whose bytes or length stay counted. */
  lemma SelectExactly(c: Cache, queue: QueueName, f: EvictFaults, sz: Hash -> nat)
    requires Tight(c, sz) && Apart(c) && SizesFixed(c.rows, sz)
    ensures var o := EvictFrom(c, queue, f);
            && Apart(o.c) && (Tight(o.c, sz) <==> SelectionCounts(c, queue, f, sz))
            && (o.d.Evicting? ==> o.d.pending.hash !in o.c.small && o.d.pending.hash !in o.c.main)
  {
    hide EvictFromSmall, EvictFromMain, Tight, Apart, SelectionCounts;
    SelectFromSmallExactly(c, f, sz);
    SelectFromMainExactly(c, f, sz);
  }

  // ---- Interleavings that keep them exact ----

  predicate Waits(t: Pc) { t.Locked? || t.Checked? }

  predicate IsPending(m: Machine, h: Hash) { !m.evictor.Free? && m.evictor.p.hash == h }

  predicate IsQueued(m: Machine, h: Hash) { h in m.c.small || h in m.c.main }

  /** A hash is admitted only while it is in neither queue, not selected for eviction and not being admitted;
      a removal is told the blob's size; a selection does not lose its entry. Everything else may fail. */
  ghost predicate Orderly(m: Machine, s: Step, sz: Hash -> nat) {
    match s
    case LockShared(_, h) =>
      !IsQueued(m, h) && !IsPending(m, h)
      && forall j :: 0 <= j < |m.threads| && Waits(m.threads[j]) ==> m.threads[j].h != h
    case RemoveBlob(h, size, _) => size == sz(h)
    case Select(queue, f) => SelectionCounts(m.c, queue, f, sz)
    case _ => true
  }

  /** What waiting admissions and a selected candidate keep to themselves. */
  ghost predicate Separate(m: Machine) {
    && Apart(m.c)
    && (forall i :: 0 <= i < |m.threads| && Waits(m.threads[i]) ==>
          !IsQueued(m, m.threads[i].h) && !IsPending(m, m.threads[i].h))
    && (forall i, j :: 0 <= i < j < |m.threads| && Waits(m.threads[i]) && Waits(m.threads[j]) ==>
          m.threads[i].h != m.threads[j].h)
    && (!m.evictor.Free? ==> !IsQueued(m, m.evictor.p.hash))
  }

  /** The counters will be exact once every admission under way has written its own. */
  ghost predicate ExactInv(m: Machine, sz: Hash -> nat) {
    && Inv(m, sz) && Tight(Settled(m, sz), sz) && Separate(m)
  }

  lemma AdmitStepTight(cfg: Config, m: Machine, s: Step, sz: Hash -> nat)
    requires ExactInv(m, sz) && Enabled(m, s, sz) && AdmitStep(s)
    ensures Tight(Settled(Next(cfg, m, s, sz), sz), sz)
  {
    hide TotalBytes, TotalEntries, Push, Without, Sum, NoDup, Covers;
    var m' := Next(cfg, m, s, sz);
    TotalsAfter(m.threads, s.i, m'.threads[s.i], Small, sz);
    TotalsAfter(m.threads, s.i, m'.threads[s.i], Main, sz);
    assert m'.threads == m.threads[s.i := m'.threads[s.i]];
    if s.WriteQueue? {
      PushFacts(m.c.small, m.threads[s.i].h, sz);
      PushFacts(m.c.main, m.threads[s.i].h, sz);
    }
  }

  lemma AdmitStepSeparate(cfg: Config, m: Machine, s: Step, sz: Hash -> nat)
    requires ExactInv(m, sz) && Enabled(m, s, sz) && AdmitStep(s) && Orderly(m, s, sz)
    ensures Separate(Next(cfg, m, s, sz))
  {
    hide Inv, Tight, Settled, Push, Without;
    if s.WriteQueue? {
      WriteSeparate(m, s.i, s.fails);
    }
  }

  lemma WriteSeparate(m: Machine, i: nat, fails: bool)
    requires Separate(m) && i < |m.threads| && m.threads[i].Checked?
    ensures var t := m.threads[i];
            var (c, a) := AdmitWrite(m.c, t.h, t.inGhost, fails);
            Separate(m.(c := c, threads := m.threads[i := if a.Rejected? then Counted else Written(t.h, a)]))
  {
    hide Push, Without;
    PushMembers(m.c.small, m.threads[i].h);
    PushMembers(m.c.main, m.threads[i].h);
  }

  lemma RemoveExact(c: Cache, h: Hash, size: nat, f: RemoveFaults, sz: Hash -> nat)
    requires Tight(c, sz) && Apart(c) && size == sz(h)
    ensures var d := Remove(c, h, size, f);
            && Tight(d, sz) && Apart(d)
            && (forall g :: g in d.small ==> g in c.small) && (forall g :: g in d.main ==> g in c.main)
  {
    hide Without, Sum, NoDup;
    WithoutFacts(c.small, h, sz);
    WithoutFacts(c.main, h, sz);
    WithoutMembers(c.small, h);
    WithoutMembers(c.main, h);
    if h in c.small { assert Sum(Without(c.small, h), sz) >= 0; }
  }

  lemma RestoreExact(c: Cache, p: Pending, fails: bool, sz: Hash -> nat)
    requires Tight(c, sz) && Apart(c) && p.size == sz(p.hash) && p.hash !in c.small && p.hash !in c.main
    ensures Tight(Restore(c, p, fails), sz) && Apart(Restore(c, p, fails))
  {
    hide Push, Sum, NoDup;
    PushFacts(c.small, p.hash, sz);
    PushFacts(c.main, p.hash, sz);
    PushMembers(c.small, p.hash);
    PushMembers(c.main, p.hash);
  }

  /** A deletion, a finish and a change of rows leave the queues and their counters alone. */
  lemma SameQueues(c: Cache, d: Cache, sz: Hash -> nat)
    requires c.small == d.small && c.main == d.main && c.smallBytes == d.smallBytes && c.mainBytes == d.mainBytes
    requires c.smallLen == d.smallLen && c.mainLen == d.mainLen
    ensures Tight(c, sz) == Tight(d, sz) && Apart(c) == Apart(d)
  {
  }

  /** The steps that hold the lock exclusively. */
  lemma LockedStepExact(cfg: Config, m: Machine, s: Step, sz: Hash -> nat)
    requires ExactInv(m, sz) && Enabled(m, s, sz) && Orderly(m, s, sz)
    requires s.RemoveBlob? || s.Select? || s.FinishEviction? || s.RestoreCandidate?
    ensures var m' := Next(cfg, m, s, sz); Tight(Settled(m', sz), sz) && Separate(m')
  {
    hide Covers, Remove, EvictFrom, Restore, GhostMax, Tight, Apart, Settled, SelectionCounts;
    var m' := Next(cfg, m, s, sz);
    SettledWhenFree(m, sz);
    SettledWhenFree(m', sz);
    InvSizes(m, sz);
    match s
    case RemoveBlob(h, size, f) => RemoveExact(m.c, h, size, f, sz);
    case Select(queue, f) => SelectExactly(m.c, queue, f, sz);
    case FinishEviction(f) => SameQueues(m.c, m'.c, sz);
    case RestoreCandidate(fails) => RestoreExact(m.c, m.evictor.p, fails, sz);
  }

  lemma InvSizes(m: Machine, sz: Hash -> nat)
    requires Inv(m, sz)
    ensures SizesFixed(m.c.rows, sz)
    ensures m.evictor.Undeleted? ==> m.evictor.p.size == sz(m.evictor.p.hash)
  {
    hide TotalBytes, TotalEntries;
  }

  lemma UnlockedStepExact(cfg: Config, m: Machine, s: Step, sz: Hash -> nat)
    requires ExactInv(m, sz) && Enabled(m, s, sz) && (s.DeleteCandidate? || s.ChangeRows?)
    ensures var m' := Next(cfg, m, s, sz); Tight(Settled(m', sz), sz) && Separate(m')
  {
    hide Inv, Tight, TotalBytes, TotalEntries;
    var m' := Next(cfg, m, s, sz);
    SameQueues(Settled(m, sz), Settled(m', sz), sz);
    SameQueues(m.c, m'.c, sz);
  }

  lemma StepKeepsExact(cfg: Config, m: Machine, s: Step, sz: Hash -> nat)
    requires ExactInv(m, sz) && Enabled(m, s, sz) && Orderly(m, s, sz)
    ensures ExactInv(Next(cfg, m, s, sz), sz)
  {
    hide Inv, Next, Tight, Settled, Separate, Enabled, Orderly;
    StepKeepsInv(cfg, m, s, sz);
    if AdmitStep(s) {
      AdmitStepTight(cfg, m, s, sz);
      AdmitStepSeparate(cfg, m, s, sz);
    } else if s.DeleteCandidate? || s.ChangeRows? {
      UnlockedStepExact(cfg, m, s, sz);
    } else {
      LockedStepExact(cfg, m, s, sz);
    }
  }

  ghost predicate AllOrderly(cfg: Config, m: Machine, steps: seq<Step>, sz: Hash -> nat)
    requires CanRun(cfg, m, steps, sz)
    decreases |steps|
  {
    steps == [] || (Orderly(m, steps[0], sz) && AllOrderly(cfg, Next(cfg, m, steps[0], sz), steps[1..], sz))
  }

  lemma {:induction false} RunKeepsExact(cfg: Config, m: Machine, steps: seq<Step>, sz: Hash -> nat)
    requires ExactInv(m, sz) && CanRun(cfg, m, steps, sz) && AllOrderly(cfg, m, steps, sz)
    ensures ExactInv(RunSteps(cfg, m, steps, sz), sz)
    decreases |steps|
  {
    hide ExactInv, Enabled, Next, Orderly;
    if steps != [] {
      StepKeepsExact(cfg, m, steps[0], sz);
      RunKeepsExact(cfg, Next(cfg, m, steps[0], sz), steps[1..], sz);
    }
  }

  /** From a recount in which every queued hash has a row, every orderly interleaving keeps the queues disjoint
      and all four counters exact whenever the lock is free. */
  lemma CountersStayExact(cfg: Config, c0: Cache, n: nat, steps: seq<Step>, sz: Hash -> nat)
    requires NoDup(c0.small) && NoDup(c0.main) && Apart(c0) && SizesFixed(c0.rows, sz)
    requires forall h :: h in c0.small || h in c0.main ==> h in c0.rows
    requires CanRun(cfg, Started(c0, {}, n), steps, sz) && AllOrderly(cfg, Started(c0, {}, n), steps, sz)
    ensures var m := RunSteps(cfg, Started(c0, {}, n), steps, sz);
            Apart(m.c) && (LockFree(m) ==> Tight(m.c, sz))
  {
    hide CanRun, RunSteps, AllOrderly, Tight, Covers, Recomputed;
    var m0 := Started(c0, {}, n);
    RecountCovers(c0, {}, sz);
    RecountTight(c0, sz);
    SettledWhenFree(m0, sz);
    RunKeepsExact(cfg, m0, steps, sz);
    var m := RunSteps(cfg, m0, steps, sz);
    if LockFree(m) { SettledWhenFree(m, sz); }
  }

  lemma RecountTight(c: Cache, sz: Hash -> nat)
    requires NoDup(c.small) && NoDup(c.main) && SizesFixed(c.rows, sz)
    requires forall h :: h in c.small || h in c.main ==> h in c.rows
    ensures Tight(Recomputed(c, {}), sz)
    ensures Recomputed(c, {}).small == c.small && Recomputed(c, {}).main == c.main
  {
    RecountCovers(c, {}, sz);
  }

  // ---- The ghost counter ----

  /** A finish lets the ghost counter fall below the size of the ghost set if and only if its trim fails while
      the set, with the new entry, is over its maximum: the counter is capped all the same. */
  lemma FinishGhostsExactly(cfg: Config, c: Cache, p: Pending, f: FinishFaults)
    requires NoDup(c.ghosts) && c.ghostLen >= |c.ghosts|
    ensures var d := Finish(cfg, c, p, f);
            var added := |c.ghosts| + if f.add || p.hash in c.ghosts then 0 else 1;
            && NoDup(d.ghosts)
            && (d.ghostLen < |d.ghosts| <==> p.addToGhost && f.trim && added > GhostMax(cfg, c))
  {
    hide Push, GhostMax;
    PushNoDup(c.ghosts, p.hash);
    MaxPositive(cfg, c);
  }

  /** A finish that adds and trims leaves an exact ghost counter if and only if the counter went up by as much
      as the set did, or both reach the maximum. */
  lemma TrimSettlesGhostsExactly(cfg: Config, c: Cache, p: Pending)
    requires NoDup(c.ghosts) && p.addToGhost && c.ghostLen >= 0
    ensures var d := Finish(cfg, c, p, FinishFaults(false, false));
            var added := |c.ghosts| + if p.hash in c.ghosts then 0 else 1;
            d.ghostLen == |d.ghosts|
            <==> c.ghostLen + 1 == added || (c.ghostLen + 1 >= GhostMax(cfg, c) && added >= GhostMax(cfg, c))
  {
    hide Push, GhostMax;
    PushNoDup(c.ghosts, p.hash);
    MaxPositive(cfg, c);
  }

  /** So a counter that fell short can stay short: with a maximum of two and an exact counter, a finish whose
      trim fails, two removals and a finish without failures end with one counted of two. */
  lemma GhostsStayShort(c: Cache, a: Hash, b: Hash, e: Pending, g: Pending, percent: nat, size: nat)
    requires c.ghosts == [a, b] && c.ghostLen == 2 && e.addToGhost && g.addToGhost
    requires a != b && e.hash !in {a, b} && g.hash !in {a, b, e.hash}
    ensures var cfg := Config(100, percent, 2);
            var c1 := Finish(cfg, c, e, FinishFaults(false, true));
            var c2 := Remove(Remove(c1, a, size, NO_REMOVE_FAULT), b, size, NO_REMOVE_FAULT);
            var d := Finish(cfg, c2, g, FinishFaults(false, false));
            d.ghosts == [e.hash, g.hash] && d.ghostLen == 1
  {
    hide Push, Without, Remove;
    var x, y := e.hash, g.hash;
    PushMembers([a, b], x);
    assert [a, b] + [x] == [a, b, x];
    var c1 := Finish(Config(100, percent, 2), c, e, FinishFaults(false, true));
    RemoveGhost(c1, a, size);
    WithoutFirst([a, b, x]);
    assert [a, b, x][1..] == [b, x];
    RemoveGhost(Remove(c1, a, size, NO_REMOVE_FAULT), b, size);
    WithoutFirst([b, x]);
    assert [b, x][1..] == [x];
    PushMembers([x], y);
    assert [x] + [y] == [x, y];
  }

  lemma RemoveGhost(c: Cache, h: Hash, size: nat)
    requires h in c.ghosts
    ensures var d := Remove(c, h, size, NO_REMOVE_FAULT);
            d.ghosts == Without(c.ghosts, h) && d.ghostLen == NonNegative(c.ghostLen - 1)
  {
    hide Without;
  }

  lemma MaxPositive(cfg: Config, c: Cache)
    ensures GhostMax(cfg, c) > 0
  {
  }

  /** The ghost set, and what admissions under way have taken from it without counting that yet. */
  ghost predicate GhostInv(m: Machine) {
    NoDup(m.c.ghosts) && m.c.ghostLen >= |m.c.ghosts| + TotalEntries(m.threads, Main)
  }

  lemma StepKeepsGhosts(cfg: Config, m: Machine, s: Step, sz: Hash -> nat)
    requires GhostInv(m) && Enabled(m, s, sz) && (s.FinishEviction? ==> !s.finishFaults.trim)
    ensures GhostInv(Next(cfg, m, s, sz))
  {
    hide TotalEntries, TotalBytes, Push, Without, NoDup, Finish, EvictFrom;
    var m' := Next(cfg, m, s, sz);
    if AdmitStep(s) {
      TotalsAfter(m.threads, s.i, m'.threads[s.i], Main, sz);
      assert m'.threads == m.threads[s.i := m'.threads[s.i]];
      if s.WriteQueue? { WithoutNoDup(m.c.ghosts, m.threads[s.i].h); }
    } else {
      match s
      case RemoveBlob(h, _, _) =>
        NothingDue(m.threads, Main, sz);
        WithoutNoDup(m.c.ghosts, h);
      case FinishEviction(f) =>
        NothingDue(m.threads, Main, sz);
        FinishGhostsExactly(cfg, m.c, m.evictor.p, f);
      case Select(queue, f) => SelectKeepsGhosts(m.c, queue, f);
      case _ =>
    }
  }

  lemma SelectKeepsGhosts(c: Cache, queue: QueueName, f: EvictFaults)
    ensures var o := EvictFrom(c, queue, f); o.c.ghosts == c.ghosts && o.c.ghostLen == c.ghostLen
  {
    hide Push;
  }

  lemma {:induction false} RunKeepsGhosts(cfg: Config, m: Machine, steps: seq<Step>, sz: Hash -> nat)
    requires GhostInv(m) && CanRun(cfg, m, steps, sz)
    requires forall s :: s in steps && s.FinishEviction? ==> !s.finishFaults.trim
    ensures GhostInv(RunSteps(cfg, m, steps, sz))
    decreases |steps|
  {
    hide GhostInv, Enabled, Next;
    if steps != [] {
      assert steps[0] in steps;
      StepKeepsGhosts(cfg, m, steps[0], sz);
      RunKeepsGhosts(cfg, Next(cfg, m, steps[0], sz), steps[1..], sz);
    }
  }

  /** From a recount, in every interleaving in which no trim fails, the ghost counter is never below the size
      of the ghost set, so its clamps to zero are not reached either. */
  lemma GhostsNeverUnderCounted(cfg: Config, c0: Cache, unreadable: set<Hash>, n: nat, steps: seq<Step>,
                                sz: Hash -> nat)
    requires NoDup(c0.ghosts) && CanRun(cfg, Started(c0, unreadable, n), steps, sz)
    requires forall s :: s in steps && s.FinishEviction? ==> !s.finishFaults.trim
    ensures var m := RunSteps(cfg, Started(c0, unreadable, n), steps, sz);
            m.c.ghostLen >= |m.c.ghosts| + TotalEntries(m.threads, Main)
  {
    hide CanRun, RunSteps, Sum;
    NothingDue(Started(c0, unreadable, n).threads, Main, sz);
    RunKeepsGhosts(cfg, Started(c0, unreadable, n), steps, sz);
  }
}
