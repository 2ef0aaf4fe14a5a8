/** The S3-FIFO cache as a state over sequences and maps, and each atomic step of the eviction manager.

    Every call that can fail has a flag saying whether it does; a failed transaction changes nothing.
 */
module CacheSteps {
  import opened ByteStrings
  import opened Blobs
  import opened Fifo
  import opened Queues

  datatype Config = Config(maxSize: nat, smallPercent: nat, ghostMaxEntries: nat)

  const GHOST_FLOOR: nat := 128
  const DEFAULT_SMALL_PERCENT: nat := 10

  predicate Normal(cfg: Config) { cfg.maxSize > 0 && 1 <= cfg.smallPercent <= 100 }

  function SmallTarget(cfg: Config): nat { cfg.maxSize * cfg.smallPercent / 100 }

  /** Persisted queues (oldest first), in-memory counters, blob rows and files on disk. */
  datatype Cache = Cache(
    small: seq<Hash>, main: seq<Hash>, ghosts: seq<Hash>,
    smallBytes: int, mainBytes: int, smallLen: int, mainLen: int, ghostLen: int,
    rows: map<Hash, BlobEntry>, files: set<Hash>)

  predicate Over(cfg: Config, c: Cache) { c.smallBytes + c.mainBytes > cfg.maxSize }

  predicate Pinned(rows: map<Hash, BlobEntry>, h: Hash) { h in rows && rows[h].refCount > 0 }

  function NonNegative(n: int): int { if n < 0 then 0 else n }

  // ---- Admission: the ghost check, the queue write and the counter write ----

  datatype AdmitFaults = AdmitFaults(ghostRead: bool, write: bool)

  datatype Admission = Rejected | NotNew | ToSmall | ToMain

  function AdmitWrite(c: Cache, h: Hash, inGhost: bool, fails: bool): (Cache, Admission) {
    if fails then (c, Rejected)
    else if inGhost then
      if h in c.ghosts then (c.(ghosts := Without(c.ghosts, h), main := Push(c.main, h)), ToMain) else (c, NotNew)
    else
      (c.(small := Push(c.small, h)), if h in c.small then NotNew else ToSmall)
  }

  function AdmitCount(c: Cache, a: Admission, size: nat): Cache {
    match a
    case ToMain =>
      c.(mainBytes := c.mainBytes + size, mainLen := c.mainLen + 1, ghostLen := NonNegative(c.ghostLen - 1))
    case ToSmall => c.(smallBytes := c.smallBytes + size, smallLen := c.smallLen + 1)
    case _ => c
  }

  function Admit(c: Cache, h: Hash, size: nat, f: AdmitFaults): Cache {
    var (w, a) := AdmitWrite(c, h, !f.ghostRead && h in c.ghosts, f.write);
    AdmitCount(w, a, size)
  }

  // ---- Removal by another component ----

  datatype RemoveFaults = RemoveFaults(small: bool, main: bool, ghostRead: bool, ghostRemove: bool)

  const NO_REMOVE_FAULT := RemoveFaults(false, false, false, false)

  function RemoveFromSmall(c: Cache, h: Hash, size: nat, fails: bool): Cache {
    if fails || h !in c.small then c
    else c.(small := Without(c.small, h), smallBytes := NonNegative(c.smallBytes - size),
            smallLen := NonNegative(c.smallLen - 1))
  }

  function RemoveFromMain(c: Cache, h: Hash, size: nat, fails: bool): Cache {
    if fails || h !in c.main then c
    else c.(main := Without(c.main, h), mainBytes := NonNegative(c.mainBytes - size),
            mainLen := NonNegative(c.mainLen - 1))
  }

  function RemoveFromGhosts(c: Cache, h: Hash, fails: bool): Cache {
    if fails || h !in c.ghosts then c
    else c.(ghosts := Without(c.ghosts, h), ghostLen := NonNegative(c.ghostLen - 1))
  }

  function Remove(c: Cache, h: Hash, size: nat, f: RemoveFaults): Cache {
    RemoveFromGhosts(RemoveFromMain(RemoveFromSmall(c, h, size, f.small), h, size, f.main), h,
                     f.ghostRead || f.ghostRemove)
  }

  // ---- One eviction decision ----

  datatype Pending = Pending(queue: QueueName, hash: Hash, size: nat, addToGhost: bool)

  /** Idle: nothing selected; Acted: promoted, re-inserted or dropped an entry without a row. */
  datatype Decision = Idle | Skipped | Acted | Evicting(pending: Pending) | Failed

  datatype Outcome = Outcome(c: Cache, d: Decision)

  datatype EvictFaults = EvictFaults(pop: bool, get: bool, put: bool, push: bool, repush: bool)

  const NO_FAULT := EvictFaults(false, false, false, false, false)

  function Requeued(q: seq<Hash>, h: Hash, fails: bool): seq<Hash> { if fails then q else Push(q, h) }

  function EvictFromSmall(c: Cache, f: EvictFaults): Outcome {
    if f.pop then Outcome(c, Failed)
    else if c.small == [] then Outcome(c, Acted)
    else
      var h, rest := c.small[0], c.small[1..];
      if f.get then
        Outcome(c.(small := Requeued(rest, h, f.repush)), Failed)
      else if h !in c.rows then
        Outcome(c.(small := rest, smallLen := c.smallLen - 1), Acted)
      else if c.rows[h].refCount > 0 then
        if f.push then Outcome(c.(small := rest, smallLen := c.smallLen - 1), Failed)
        else Outcome(c.(small := Push(rest, h)), Skipped)
      else if c.rows[h].accessCount > 0 then
        if f.push then Outcome(c.(small := Requeued(rest, h, f.repush)), Failed)
        else Outcome(c.(small := rest, smallLen := c.smallLen - 1, smallBytes := c.smallBytes - c.rows[h].size,
                        main := Push(c.main, h), mainLen := c.mainLen + 1, mainBytes := c.mainBytes + c.rows[h].size),
                     Acted)
      else
        Outcome(c.(small := rest, smallLen := c.smallLen - 1, smallBytes := c.smallBytes - c.rows[h].size),
                Evicting(Pending(Small, h, c.rows[h].size, true)))
  }

  function EvictFromMain(c: Cache, f: EvictFaults): Outcome {
    if f.pop then Outcome(c, Failed)
    else if c.main == [] then Outcome(c, Acted)
    else
      var h, rest := c.main[0], c.main[1..];
      if f.get then
        Outcome(c.(main := Requeued(rest, h, f.repush)), Failed)
      else if h !in c.rows then
        Outcome(c.(main := rest, mainLen := c.mainLen - 1), Acted)
      else if c.rows[h].refCount > 0 then
        if f.push then Outcome(c.(main := rest, mainLen := c.mainLen - 1), Failed)
        else Outcome(c.(main := Push(rest, h)), Skipped)
      else if c.rows[h].accessCount > 0 then
        if f.put then Outcome(c.(main := Requeued(rest, h, f.repush)), Failed)
        else if f.push then
          Outcome(c.(main := rest, mainLen := c.mainLen - 1, rows := Cooled(c.rows, h)), Failed)
        else
          Outcome(c.(main := Push(rest, h), rows := Cooled(c.rows, h)), Acted)
      else
        Outcome(c.(main := rest, mainLen := c.mainLen - 1, mainBytes := c.mainBytes - c.rows[h].size),
                Evicting(Pending(Main, h, c.rows[h].size, false)))
  }

  function EvictFrom(c: Cache, queue: QueueName, f: EvictFaults): Outcome {
    if queue == Small then EvictFromSmall(c, f) else EvictFromMain(c, f)
  }

  // ---- A bounded scan ----

  predicate ScanStops(cfg: Config, c: Cache, queue: QueueName) {
    || !Over(cfg, c)
    || (queue == Small && (c.smallBytes <= SmallTarget(cfg) || c.smallLen == 0))
    || (queue == Main && c.mainLen == 0)
  }

  /** Which calls fail, by the number of attempts left. */
  type FaultPlan = int -> EvictFaults

  function Scan(cfg: Config, c: Cache, queue: QueueName, attempts: int, plan: FaultPlan): Outcome
    decreases attempts
  {
    if attempts <= 0 || ScanStops(cfg, c, queue) then Outcome(c, Idle)
    else
      var o := EvictFrom(c, queue, plan(attempts));
      if o.d.Skipped? then Scan(cfg, o.c, queue, attempts - 1, plan) else o
  }

  // ---- The deletion outside the lock, and its commit or undo ----

  datatype DeleteFaults = DeleteFaults(backend: bool, row: bool)

  function DeleteFromBackend(c: Cache, h: Hash, f: DeleteFaults): (Cache, bool) {
    if f.backend then (c, false)
    else if f.row then (c.(files := c.files - {h}), false)
    else (c.(files := c.files - {h}, rows := c.rows - {h}), true)
  }

  function Restore(c: Cache, p: Pending, fails: bool): Cache {
    if fails then c
    else if p.queue == Small then
      var c' := c.(small := Push(c.small, p.hash));
      if p.hash in c.small then c' else c'.(smallBytes := c.smallBytes + p.size, smallLen := c.smallLen + 1)
    else
      var c' := c.(main := Push(c.main, p.hash));
      if p.hash in c.main then c' else c'.(mainBytes := c.mainBytes + p.size, mainLen := c.mainLen + 1)
  }

  function GhostMax(cfg: Config, c: Cache): int {
    if cfg.ghostMaxEntries > 0 then cfg.ghostMaxEntries
    else if c.mainLen < GHOST_FLOOR then GHOST_FLOOR
    else c.mainLen
  }

  datatype FinishFaults = FinishFaults(add: bool, trim: bool)

  function Finish(cfg: Config, c: Cache, p: Pending, f: FinishFaults): Cache {
    if !p.addToGhost then c
    else
      var added := if f.add then c.ghosts else Push(c.ghosts, p.hash);
      var len := if f.add then c.ghostLen else c.ghostLen + 1;
      var max := GhostMax(cfg, c);
      c.(ghosts := if f.trim then added else Newest(added, max), ghostLen := if len > max then max else len)
  }

  // ---- One run of the eviction goroutine ----

  datatype RunFaults =
    RunFaults(small: FaultPlan, main: FaultPlan, delete: DeleteFaults, restore: bool, finish: FinishFaults)

  datatype Run = Run(c: Cache, acted: bool, signal: bool)

  function MaybeEvict(cfg: Config, c: Cache, f: RunFaults): Run {
    if !Over(cfg, c) then Run(c, false, false)
    else
      var o := Scan(cfg, c, Small, c.smallLen, f.small);
      Settle(cfg, if o.d.Idle? then Scan(cfg, o.c, Main, o.c.mainLen, f.main) else o, f)
  }

  function Settle(cfg: Config, o: Outcome, f: RunFaults): Run {
    match o.d
    case Evicting(p) =>
      var (d, ok) := DeleteFromBackend(o.c, p.hash, f.delete);
      if ok then Signalled(cfg, Finish(cfg, d, p, f.finish)) else Run(Restore(d, p, f.restore), false, false)
    case Acted => Signalled(cfg, o.c)
    case _ => Run(o.c, false, false)
  }

  function Signalled(cfg: Config, c: Cache): Run { Run(c, true, Over(cfg, c)) }

  /** No call fails. */
  ghost predicate Quiet(f: RunFaults) {
    && (forall n :: f.small(n) == NO_FAULT)
    && (forall n :: f.main(n) == NO_FAULT)
    && f.delete == DeleteFaults(false, false) && f.finish == FinishFaults(false, false)
  }

  // ---- Recomputing the counters at start-up ----

  function SizeIn(rows: map<Hash, BlobEntry>): Hash -> nat {
    h => if h in rows then rows[h].size else 0
  }

  /** A row that is missing or cannot be read counts as an entry without a size. */
  ghost function Recomputed(c: Cache, unreadable: set<Hash>): Cache {
    var size := SizeIn(c.rows - unreadable);
    c.(smallBytes := Sum(c.small, size), mainBytes := Sum(c.main, size),
       smallLen := |c.small|, mainLen := |c.main|, ghostLen := |c.ghosts|)
  }
}
