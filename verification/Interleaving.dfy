/** Admissions, removals and eviction interleaved: the counters never fall below the true queue totals.

    An admission holds the queue lock shared and takes three separate steps under it; a removal, a
    candidate selection, a restore and a finish each hold it exclusively and are one step; the deletion
    holds no lock. Any call may fail, and rows and files may change under every step. */
module Interleaving {
  import opened ByteStrings
  import opened Fifo
  import opened Queues
  import opened Blobs
  import opened CacheSteps

  /** Where one admitting thread stands. */
  datatype Pc = Outside | Locked(h: Hash) | Checked(h: Hash, inGhost: bool) | Written(h: Hash, a: Admission) | Counted

  datatype Evictor = Free | Deleting(p: Pending) | Deleted(p: Pending) | Undeleted(p: Pending)

  datatype Machine = Machine(c: Cache, threads: seq<Pc>, evictor: Evictor)

  datatype Step =
    | LockShared(i: nat, h: Hash)
    | CheckGhost(i: nat, fails: bool)
    | WriteQueue(i: nat, fails: bool)
    | WriteCounters(i: nat)
    | Unlock(i: nat)
    | RemoveBlob(h: Hash, size: nat, removeFaults: RemoveFaults)
    | Select(queue: QueueName, evictFaults: EvictFaults)
    | DeleteCandidate(deleteFaults: DeleteFaults)
    | FinishEviction(finishFaults: FinishFaults)
    | RestoreCandidate(fails: bool)
    | ChangeRows(rows: Rows, files: set<Hash>)

  /** Nobody holds the lock shared, so it can be held exclusively. */
  ghost predicate LockFree(m: Machine) { forall i :: 0 <= i < |m.threads| ==> m.threads[i].Outside? }

  ghost predicate SizesFixed(rows: Rows, sz: Hash -> nat) { forall h :: h in rows ==> rows[h].size == sz(h) }

  ghost predicate Enabled(m: Machine, s: Step, sz: Hash -> nat) {
    match s
    case LockShared(i, _) => i < |m.threads| && m.threads[i].Outside?
    case CheckGhost(i, _) => i < |m.threads| && m.threads[i].Locked?
    case WriteQueue(i, _) => i < |m.threads| && m.threads[i].Checked?
    case WriteCounters(i) => i < |m.threads| && m.threads[i].Written?
    case Unlock(i) => i < |m.threads| && m.threads[i].Counted?
    case RemoveBlob(h, size, _) => LockFree(m) && size <= sz(h)
    case Select(_, _) => LockFree(m) && m.evictor.Free?
    case DeleteCandidate(_) => m.evictor.Deleting?
    case FinishEviction(_) => LockFree(m) && m.evictor.Deleted?
    case RestoreCandidate(_) => LockFree(m) && m.evictor.Undeleted?
    case ChangeRows(rows, _) => SizesFixed(rows, sz)
  }

  ghost function Next(cfg: Config, m: Machine, s: Step, sz: Hash -> nat): Machine
    requires Enabled(m, s, sz)
  {
    match s
    case LockShared(i, h) => m.(threads := m.threads[i := Locked(h)])
    case CheckGhost(i, fails) =>
      var h := m.threads[i].h;
      m.(threads := m.threads[i := Checked(h, !fails && h in m.c.ghosts)])
    case WriteQueue(i, fails) =>
      var t := m.threads[i];
      var (c, a) := AdmitWrite(m.c, t.h, t.inGhost, fails);
      m.(c := c, threads := m.threads[i := if a.Rejected? then Counted else Written(t.h, a)])
    case WriteCounters(i) =>
      var t := m.threads[i];
      m.(c := AdmitCount(m.c, t.a, sz(t.h)), threads := m.threads[i := Counted])
    case Unlock(i) => m.(threads := m.threads[i := Outside])
    case RemoveBlob(h, size, f) => m.(c := Remove(m.c, h, size, f))
    case Select(queue, f) =>
      var o := EvictFrom(m.c, queue, f);
      m.(c := o.c, evictor := if o.d.Evicting? then Deleting(o.d.pending) else Free)
    case DeleteCandidate(f) =>
      var (c, ok) := DeleteFromBackend(m.c, m.evictor.p.hash, f);
      m.(c := c, evictor := if ok then Deleted(m.evictor.p) else Undeleted(m.evictor.p))
    case FinishEviction(f) => m.(c := Finish(cfg, m.c, m.evictor.p, f), evictor := Free)
    case RestoreCandidate(fails) => m.(c := Restore(m.c, m.evictor.p, fails), evictor := Free)
    case ChangeRows(rows, files) => m.(c := m.c.(rows := rows, files := files))
  }

  // ---- What an exclusive holder of the lock may rely on ----

  /** The counters are at least the true totals of duplicate-free queues. */
  ghost predicate Covers(c: Cache, sz: Hash -> nat) {
    && NoDup(c.small) && NoDup(c.main) && SizesFixed(c.rows, sz)
    && c.smallBytes >= Sum(c.small, sz) && c.mainBytes >= Sum(c.main, sz)
    && c.smallLen >= |c.small| && c.mainLen >= |c.main|
  }

  /** A recount in which every queued hash has a row that can be read is exact, so it covers. */
  lemma RecountCovers(c: Cache, unreadable: set<Hash>, sz: Hash -> nat)
    requires NoDup(c.small) && NoDup(c.main) && SizesFixed(c.rows, sz)
    requires forall h :: h in c.small || h in c.main ==> h in c.rows && h !in unreadable
    ensures var r := Recomputed(c, unreadable);
            Covers(r, sz) && r.smallBytes == Sum(c.small, sz) && r.mainBytes == Sum(c.main, sz)
  {
    SumSame(c.small, SizeIn(c.rows - unreadable), sz);
    SumSame(c.main, SizeIn(c.rows - unreadable), sz);
  }

  lemma PopFacts(q: seq<Hash>, w: Hash -> nat)
    requires q != [] && NoDup(q)
    ensures NoDup(q[1..]) && |q[1..]| == |q| - 1 && q[0] !in q[1..]
    ensures Sum(q, w) == w(q[0]) + Sum(q[1..], w)
  {
    SumPop(q, w);
  }

  lemma PushFacts(q: seq<Hash>, h: Hash, w: Hash -> nat)
    requires NoDup(q)
    ensures NoDup(Push(q, h)) && |Push(q, h)| == |q| + (if h in q then 0 else 1)
    ensures Sum(Push(q, h), w) == Sum(q, w) + (if h in q then 0 else w(h))
  {
    PushNoDup(q, h);
    SumOfPush(q, h, w);
  }

  lemma WithoutFacts(q: seq<Hash>, h: Hash, w: Hash -> nat)
    requires NoDup(q)
    ensures NoDup(Without(q, h)) && |Without(q, h)| == |q| - (if h in q then 1 else 0)
    ensures Sum(Without(q, h), w) == Sum(q, w) - (if h in q then w(h) else 0)
  {
    WithoutNoDup(q, h);
    SumWithout(q, h, w);
  }

  /** Removing the hash subtracts without reaching a clamp to zero. */
  ghost predicate NoClamp(c: Cache, h: Hash, size: nat) {
    && (h in c.small ==> c.smallBytes - size >= 0 && c.smallLen - 1 >= 0)
    && (h in c.main ==> c.mainBytes - size >= 0 && c.mainLen - 1 >= 0)
  }

  /** A removal never under-counts, and its subtractions never reach the clamps to zero. */
  lemma RemoveCovers(c: Cache, h: Hash, size: nat, f: RemoveFaults, sz: Hash -> nat)
    requires Covers(c, sz) && size <= sz(h)
    ensures Covers(Remove(c, h, size, f), sz)
    ensures NoClamp(c, h, size)
  {
    WithoutFacts(c.small, h, sz);
    WithoutFacts(c.main, h, sz);
  }

  lemma EvictFromSmallCovers(c: Cache, f: EvictFaults, sz: Hash -> nat)
    requires Covers(c, sz)
    ensures var o := EvictFromSmall(c, f);
            Covers(o.c, sz) && (o.d.Evicting? ==> o.d.pending.size == sz(o.d.pending.hash))
  {
    hide Push, Without, Sum, NoDup;
    if c.small != [] {
      var h := c.small[0];
      PopFacts(c.small, sz);
      PushFacts(c.small[1..], h, sz);
      PushFacts(c.main, h, sz);
    }
  }

  lemma EvictFromMainCovers(c: Cache, f: EvictFaults, sz: Hash -> nat)
    requires Covers(c, sz)
    ensures var o := EvictFromMain(c, f);
            Covers(o.c, sz) && (o.d.Evicting? ==> o.d.pending.size == sz(o.d.pending.hash))
  {
    hide Push, Without, Sum, NoDup;
    if c.main != [] {
      PopFacts(c.main, sz);
      PushFacts(c.main[1..], c.main[0], sz);
    }
  }

  lemma RestoreCovers(c: Cache, p: Pending, fails: bool, sz: Hash -> nat)
    requires Covers(c, sz) && p.size == sz(p.hash)
    ensures Covers(Restore(c, p, fails), sz)
    ensures p.queue == Small && p.hash in c.small ==>
              Restore(c, p, fails).smallBytes == c.smallBytes && Restore(c, p, fails).smallLen == c.smallLen
    ensures p.queue == Main && p.hash in c.main ==>
              Restore(c, p, fails).mainBytes == c.mainBytes && Restore(c, p, fails).mainLen == c.mainLen
  {
    PushFacts(c.small, p.hash, sz);
    PushFacts(c.main, p.hash, sz);
  }

  lemma DeleteCovers(c: Cache, h: Hash, f: DeleteFaults, sz: Hash -> nat)
    requires Covers(c, sz)
    ensures Covers(DeleteFromBackend(c, h, f).0, sz)
  {
  }

  lemma FinishCovers(cfg: Config, c: Cache, p: Pending, f: FinishFaults, sz: Hash -> nat)
    requires Covers(c, sz)
    ensures Covers(Finish(cfg, c, p, f), sz)
  {
  }

  // ---- Admissions under way ----

  /** What a thread has put into a queue without having counted it yet. */
  function DueBytes(t: Pc, queue: QueueName, sz: Hash -> nat): nat {
    if t.Written? && ((queue == Small && t.a.ToSmall?) || (queue == Main && t.a.ToMain?)) then sz(t.h) else 0
  }

  function DueEntries(t: Pc, queue: QueueName): nat {
    if t.Written? && ((queue == Small && t.a.ToSmall?) || (queue == Main && t.a.ToMain?)) then 1 else 0
  }

  ghost function TotalBytes(ts: seq<Pc>, queue: QueueName, sz: Hash -> nat): nat {
    if ts == [] then 0 else DueBytes(ts[0], queue, sz) + TotalBytes(ts[1..], queue, sz)
  }

  ghost function TotalEntries(ts: seq<Pc>, queue: QueueName): nat {
    if ts == [] then 0 else DueEntries(ts[0], queue) + TotalEntries(ts[1..], queue)
  }

  lemma {:induction false} TotalsAfter(ts: seq<Pc>, i: nat, t: Pc, queue: QueueName, sz: Hash -> nat)
    requires i < |ts|
    ensures TotalBytes(ts[i := t], queue, sz)
         == TotalBytes(ts, queue, sz) - DueBytes(ts[i], queue, sz) + DueBytes(t, queue, sz)
    ensures TotalEntries(ts[i := t], queue) == TotalEntries(ts, queue) - DueEntries(ts[i], queue) + DueEntries(t, queue)
  {
    if i == 0 {
      assert ts[0 := t][1..] == ts[1..];
    } else {
      TotalsAfter(ts[1..], i - 1, t, queue, sz);
      assert ts[i := t][1..] == ts[1..][i - 1 := t];
    }
  }

  lemma {:induction false} NothingDue(ts: seq<Pc>, queue: QueueName, sz: Hash -> nat)
    requires forall i :: 0 <= i < |ts| ==> ts[i].Outside?
    ensures TotalBytes(ts, queue, sz) == 0 && TotalEntries(ts, queue) == 0
  {
    if ts != [] { NothingDue(ts[1..], queue, sz); }
  }

  /** The state as it will be counted once every admission under way has written its counters. */
  ghost function Settled(m: Machine, sz: Hash -> nat): Cache {
    m.c.(smallBytes := m.c.smallBytes + TotalBytes(m.threads, Small, sz),
         mainBytes := m.c.mainBytes + TotalBytes(m.threads, Main, sz),
         smallLen := m.c.smallLen + TotalEntries(m.threads, Small),
         mainLen := m.c.mainLen + TotalEntries(m.threads, Main))
  }

  ghost predicate Inv(m: Machine, sz: Hash -> nat) {
    && Covers(Settled(m, sz), sz)
    && (m.evictor.Deleting? || m.evictor.Undeleted? ==> m.evictor.p.size == sz(m.evictor.p.hash))
  }

  lemma SettledWhenFree(m: Machine, sz: Hash -> nat)
    requires LockFree(m)
    ensures Settled(m, sz) == m.c
  {
    NothingDue(m.threads, Small, sz);
    NothingDue(m.threads, Main, sz);
  }

  predicate AdmitStep(s: Step) { s.LockShared? || s.CheckGhost? || s.WriteQueue? || s.WriteCounters? || s.Unlock? }

  /** A step of an admitting thread. */
  lemma AdmitStepKeepsInv(cfg: Config, m: Machine, s: Step, sz: Hash -> nat)
    requires Inv(m, sz) && Enabled(m, s, sz) && AdmitStep(s)
    ensures Inv(Next(cfg, m, s, sz), sz)
  {
    hide TotalBytes, TotalEntries, Push, Without, Sum, NoDup;
    var m' := Next(cfg, m, s, sz);
    TotalsAfter(m.threads, s.i, m'.threads[s.i], Small, sz);
    TotalsAfter(m.threads, s.i, m'.threads[s.i], Main, sz);
    assert m'.threads == m.threads[s.i := m'.threads[s.i]];
    if s.WriteQueue? {
      PushFacts(m.c.small, m.threads[s.i].h, sz);
      PushFacts(m.c.main, m.threads[s.i].h, sz);
    }
  }

  lemma OtherStepKeepsInv(cfg: Config, m: Machine, s: Step, sz: Hash -> nat)
    requires Inv(m, sz) && Enabled(m, s, sz) && !AdmitStep(s)
    ensures Inv(Next(cfg, m, s, sz), sz)
  {
    hide Covers, Remove, EvictFromSmall, EvictFromMain, Finish, Restore, DeleteFromBackend, TotalBytes, TotalEntries;
    var m' := Next(cfg, m, s, sz);
    if LockFree(m) {
      SettledWhenFree(m, sz);
      SettledWhenFree(m', sz);
    }
    match s
    case RemoveBlob(h, size, f) => RemoveCovers(m.c, h, size, f, sz);
    case Select(queue, f) => EvictFromSmallCovers(m.c, f, sz); EvictFromMainCovers(m.c, f, sz);
    case DeleteCandidate(f) => DeleteKeepsSettled(m, m.evictor.p.hash, f, sz);
    case FinishEviction(f) => FinishCovers(cfg, m.c, m.evictor.p, f, sz);
    case RestoreCandidate(fails) => RestoreCovers(m.c, m.evictor.p, fails, sz);
    case ChangeRows(rows, files) => RowsKeepCovers(Settled(m, sz), rows, files, sz);
  }

  lemma RowsKeepCovers(c: Cache, rows: Rows, files: set<Hash>, sz: Hash -> nat)
    requires Covers(c, sz) && SizesFixed(rows, sz)
    ensures Covers(c.(rows := rows, files := files), sz)
  {
  }

  /** Deleting row and file commutes with the counts still due. */
  lemma DeleteKeepsSettled(m: Machine, h: Hash, f: DeleteFaults, sz: Hash -> nat)
    requires Covers(Settled(m, sz), sz)
    ensures Covers(Settled(m.(c := DeleteFromBackend(m.c, h, f).0), sz), sz)
  {
    hide TotalBytes, TotalEntries;
    DeleteCovers(Settled(m, sz), h, f, sz);
  }

  lemma StepKeepsInv(cfg: Config, m: Machine, s: Step, sz: Hash -> nat)
    requires Inv(m, sz) && Enabled(m, s, sz)
    ensures Inv(Next(cfg, m, s, sz), sz)
  {
    hide Inv, Enabled, Next;
    if AdmitStep(s) { AdmitStepKeepsInv(cfg, m, s, sz); } else { OtherStepKeepsInv(cfg, m, s, sz); }
  }

  // ---- Every run ----

  /** The machine after a recount, with `n` threads and nothing under way. */
  ghost function Started(c: Cache, unreadable: set<Hash>, n: nat): Machine {
    Machine(Recomputed(c, unreadable), seq(n, _ => Outside), Free)
  }

  ghost predicate CanRun(cfg: Config, m: Machine, steps: seq<Step>, sz: Hash -> nat)
    decreases |steps|
  {
    steps == [] || (Enabled(m, steps[0], sz) && CanRun(cfg, Next(cfg, m, steps[0], sz), steps[1..], sz))
  }

  ghost function RunSteps(cfg: Config, m: Machine, steps: seq<Step>, sz: Hash -> nat): Machine
    requires CanRun(cfg, m, steps, sz)
    decreases |steps|
  {
    if steps == [] then m else RunSteps(cfg, Next(cfg, m, steps[0], sz), steps[1..], sz)
  }

  lemma {:induction false} RunKeepsInv(cfg: Config, m: Machine, steps: seq<Step>, sz: Hash -> nat)
    requires Inv(m, sz) && CanRun(cfg, m, steps, sz)
    ensures Inv(RunSteps(cfg, m, steps, sz), sz)
    decreases |steps|
  {
    hide Inv, Enabled, Next;
    if steps != [] {
      StepKeepsInv(cfg, m, steps[0], sz);
      RunKeepsInv(cfg, Next(cfg, m, steps[0], sz), steps[1..], sz);
    }
  }

  /** From a recount in which every queued hash has a row that can be read, under every interleaving and every
      pattern of failures: whenever the lock can be held exclusively the four counters are at least the true
      queue totals, so no removal ever reaches a clamp. */
  lemma NeverUnderCounts(cfg: Config, c0: Cache, unreadable: set<Hash>, n: nat, steps: seq<Step>, sz: Hash -> nat)
    requires NoDup(c0.small) && NoDup(c0.main) && SizesFixed(c0.rows, sz)
    requires forall h :: h in c0.small || h in c0.main ==> h in c0.rows && h !in unreadable
    requires CanRun(cfg, Started(c0, unreadable, n), steps, sz)
    ensures var m := RunSteps(cfg, Started(c0, unreadable, n), steps, sz);
            && (LockFree(m) ==>
                  Covers(m.c, sz)
                  && forall h, size: nat :: size <= sz(h) ==> NoClamp(m.c, h, size))
            && m.c.smallBytes + TotalBytes(m.threads, Small, sz) >= Sum(m.c.small, sz)
            && m.c.mainBytes + TotalBytes(m.threads, Main, sz) >= Sum(m.c.main, sz)
            && m.c.smallLen + TotalEntries(m.threads, Small) >= |m.c.small|
            && m.c.mainLen + TotalEntries(m.threads, Main) >= |m.c.main|
  {
    hide CanRun, RunSteps, Recomputed, Remove, NoClamp;
    var m0 := Started(c0, unreadable, n);
    RecountCovers(c0, unreadable, sz);
    SettledWhenFree(m0, sz);
    RunKeepsInv(cfg, m0, steps, sz);
    var m := RunSteps(cfg, m0, steps, sz);
    if LockFree(m) {
      SettledWhenFree(m, sz);
      forall h, size: nat | size <= sz(h)
        ensures NoClamp(m.c, h, size)
      {
        RemoveCovers(m.c, h, size, NO_REMOVE_FAULT, sz);
      }
    }
  }

  // ---- The machine's steps are the manager's ----

  /** A thread that takes its steps without others in between admits as the manager does. */
  lemma AdmitIsItsSteps(cfg: Config, m: Machine, i: nat, h: Hash, f: AdmitFaults, sz: Hash -> nat)
    requires i < |m.threads| && m.threads[i].Outside?
    ensures var written := [LockShared(i, h), CheckGhost(i, f.ghostRead), WriteQueue(i, f.write)];
            var steps := if f.write then written + [Unlock(i)] else written + [WriteCounters(i), Unlock(i)];
            && CanRun(cfg, m, steps, sz)
            && RunSteps(cfg, m, steps, sz) == m.(c := Admit(m.c, h, sz(h), f))
  {
    hide CanRun, RunSteps, Push, Without;
    var written := [LockShared(i, h), CheckGhost(i, f.ghostRead), WriteQueue(i, f.write)];
    var steps := if f.write then written + [Unlock(i)] else written + [WriteCounters(i), Unlock(i)];
    var a := Next(cfg, m, steps[0], sz);
    var b := Next(cfg, a, steps[1], sz);
    var c := Next(cfg, b, steps[2], sz);
    var d := Next(cfg, c, steps[3], sz);
    RunOne(cfg, m, steps, sz);
    RunOne(cfg, a, steps[1..], sz);
    RunOne(cfg, b, steps[1..][1..], sz);
    RunOne(cfg, c, steps[1..][1..][1..], sz);
    if f.write {
      assert steps[1..][1..][1..][1..] == [];
      RunNone(cfg, d, sz);
      assert d.threads == m.threads;
    } else {
      RunOne(cfg, d, steps[1..][1..][1..][1..], sz);
      assert steps[1..][1..][1..][1..][1..] == [];
      RunNone(cfg, Next(cfg, d, steps[4], sz), sz);
      assert Next(cfg, d, steps[4], sz).threads == m.threads;
    }
  }

  lemma RunOne(cfg: Config, m: Machine, steps: seq<Step>, sz: Hash -> nat)
    requires steps != [] && Enabled(m, steps[0], sz)
    ensures CanRun(cfg, m, steps, sz) <==> CanRun(cfg, Next(cfg, m, steps[0], sz), steps[1..], sz)
    ensures CanRun(cfg, m, steps, sz) ==>
              RunSteps(cfg, m, steps, sz) == RunSteps(cfg, Next(cfg, m, steps[0], sz), steps[1..], sz)
  {
    hide Next, Enabled;
  }

  lemma RunNone(cfg: Config, m: Machine, sz: Hash -> nat)
    ensures CanRun(cfg, m, [], sz) && RunSteps(cfg, m, [], sz) == m
  {
  }

  /** A removal is the manager's removal. */
  lemma RemoveIsItsStep(cfg: Config, m: Machine, h: Hash, size: nat, f: RemoveFaults, sz: Hash -> nat)
    requires LockFree(m) && size <= sz(h)
    ensures Enabled(m, RemoveBlob(h, size, f), sz)
    ensures Next(cfg, m, RemoveBlob(h, size, f), sz) == m.(c := Remove(m.c, h, size, f))
  {
  }

  /** A selection followed by its deletion and its finish or restore settles as a run of the manager does. */
  lemma EvictIsItsSteps(cfg: Config, m: Machine, queue: QueueName, e: EvictFaults, f: RunFaults, sz: Hash -> nat)
    requires LockFree(m) && m.evictor.Free?
    ensures var o := EvictFrom(m.c, queue, e);
            var ok := o.d.Evicting? && DeleteFromBackend(o.c, o.d.pending.hash, f.delete).1;
            var steps := if !o.d.Evicting? then [Select(queue, e)]
                         else [Select(queue, e), DeleteCandidate(f.delete),
                               if ok then FinishEviction(f.finish) else RestoreCandidate(f.restore)];
            && CanRun(cfg, m, steps, sz)
            && RunSteps(cfg, m, steps, sz) == m.(c := Settle(cfg, o, f).c)
  {
    hide CanRun, RunSteps, EvictFrom, Finish, Restore, DeleteFromBackend;
    var o := EvictFrom(m.c, queue, e);
    var a := Next(cfg, m, Select(queue, e), sz);
    if o.d.Evicting? {
      var ok := DeleteFromBackend(o.c, o.d.pending.hash, f.delete).1;
      var last := if ok then FinishEviction(f.finish) else RestoreCandidate(f.restore);
      var steps := [Select(queue, e), DeleteCandidate(f.delete), last];
      var b := Next(cfg, a, steps[1], sz);
      RunOne(cfg, m, steps, sz);
      RunOne(cfg, a, steps[1..], sz);
      RunOne(cfg, b, steps[1..][1..], sz);
      assert steps[1..][1..][1..] == [];
      RunNone(cfg, Next(cfg, b, last, sz), sz);
    } else {
      RunOne(cfg, m, [Select(queue, e)], sz);
      RunNone(cfg, a, sz);
    }
  }
}
