/** Puts and deletions cut into their single effects on disk and database, interleaved and stopped at any
    point: when every file on disk has a row.

    A put writes the row and then the file; eviction, collection and explicit deletion remove the file and
    then the row. Each operation under way has a number of its own, so operations on one hash may overlap. */
module CrashSteps {
  import opened ByteStrings
  import opened Buckets
  import opened Blobs
  import opened CacheSteps
  import opened StoreSteps

  datatype Stage = Missing | RowWritten | WriteFailed | FileGone

  /** An operation under way: its hash and how far it has come. */
  datatype Task = Task(h: Hash, stage: Stage)

  datatype Disk = Disk(rows: set<Hash>, files: set<Hash>, tasks: map<nat, Task>)

  datatype Effect =
    | FindMissing(op: nat, h: Hash)
    | WriteRow(op: nat, fails: bool)
    | WriteFile(op: nat, fails: bool)
    | TakeBackRow(op: nat, fails: bool)
    | DeleteFile(op: nat, h: Hash, fails: bool)
    | DeleteRow(op: nat, fails: bool)
    | Crash

  predicate At(d: Disk, op: nat, s: Stage) { op in d.tasks && d.tasks[op].stage == s }

  predicate Possible(d: Disk, e: Effect) {
    match e
    case FindMissing(op, h) => op !in d.tasks && h !in d.files
    case WriteRow(op, _) => At(d, op, Missing)
    case WriteFile(op, _) => At(d, op, RowWritten)
    case TakeBackRow(op, _) => At(d, op, WriteFailed)
    case DeleteFile(op, _, _) => op !in d.tasks
    case DeleteRow(op, _) => At(d, op, FileGone)
    case Crash => true
  }

  function Ended(d: Disk, op: nat): Disk { d.(tasks := d.tasks - {op}) }

  function Reached(d: Disk, op: nat, h: Hash, s: Stage): Disk { d.(tasks := d.tasks[op := Task(h, s)]) }

  function Happen(d: Disk, e: Effect): Disk
    requires Possible(d, e)
  {
    match e
    case FindMissing(op, h) => Reached(d, op, h, Missing)
    case WriteRow(op, fails) =>
      var h := d.tasks[op].h;
      if fails then Ended(d, op) else Reached(d.(rows := d.rows + {h}), op, h, RowWritten)
    case WriteFile(op, fails) =>
      var h := d.tasks[op].h;
      if fails then Reached(d, op, h, WriteFailed) else Ended(d.(files := d.files + {h}), op)
    case TakeBackRow(op, fails) => Ended(if fails then d else d.(rows := d.rows - {d.tasks[op].h}), op)
    case DeleteFile(op, h, fails) => if fails then d else Reached(d.(files := d.files - {h}), op, h, FileGone)
    case DeleteRow(op, fails) => Ended(if fails then d else d.(rows := d.rows - {d.tasks[op].h}), op)
    case Crash => d.(tasks := map[])
  }

  predicate AllPossible(d: Disk, es: seq<Effect>)
    decreases |es|
  {
    es == [] || (Possible(d, es[0]) && AllPossible(Happen(d, es[0]), es[1..]))
  }

  function AllHappen(d: Disk, es: seq<Effect>): Disk
    requires AllPossible(d, es)
    decreases |es|
  {
    if es == [] then d else AllHappen(Happen(d, es[0]), es[1..])
  }

  // ---- One effect ----

  /** A file write that finds its row there, a row deletion that finds the file gone, and anything else. */
  predicate Harmless(d: Disk, e: Effect)
    requires Possible(d, e)
  {
    match e
    case WriteFile(op, fails) => fails || d.tasks[op].h in d.rows
    case TakeBackRow(op, fails) => fails || d.tasks[op].h !in d.files
    case DeleteRow(op, fails) => fails || d.tasks[op].h !in d.files
    case _ => true
  }

  /** Where every file has a row, an effect keeps that so exactly when it is harmless. */
  lemma EffectKeepsRowsExactly(d: Disk, e: Effect)
    requires d.files <= d.rows && Possible(d, e)
    ensures Happen(d, e).files <= Happen(d, e).rows <==> Harmless(d, e)
  {
    var t := Happen(d, e);
    match e
    case WriteFile(op, fails) => if !fails { assert d.tasks[op].h in t.files; }
    case TakeBackRow(op, fails) => if !fails { assert d.tasks[op].h !in t.rows; }
    case DeleteRow(op, fails) => if !fails { assert d.tasks[op].h !in t.rows; }
    case _ =>
  }

  // ---- Operations that do not overlap ----

  predicate Busy(d: Disk, h: Hash) { exists op :: op in d.tasks && d.tasks[op].h == h }

  /** An operation starts only when no other one on its hash is under way. */
  predicate Alone(d: Disk, e: Effect) {
    match e
    case FindMissing(_, h) => !Busy(d, h)
    case DeleteFile(_, h, _) => !Busy(d, h)
    case _ => true
  }

  predicate AllAlone(d: Disk, es: seq<Effect>)
    requires AllPossible(d, es)
    decreases |es|
  {
    es == [] || (Alone(d, es[0]) && AllAlone(Happen(d, es[0]), es[1..]))
  }

  /** What holds between any two effects: operations are on different hashes, and none of them has a file;
      one that wrote its row still has it. */
  ghost predicate Consistent(d: Disk) {
    && d.files <= d.rows
    && (forall op :: op in d.tasks ==>
          d.tasks[op].h !in d.files && (d.tasks[op].stage.RowWritten? ==> d.tasks[op].h in d.rows))
    && (forall op, p :: op in d.tasks && p in d.tasks && d.tasks[op].h == d.tasks[p].h ==> op == p)
  }

  lemma EffectKeepsConsistent(d: Disk, e: Effect)
    requires Consistent(d) && Possible(d, e) && Alone(d, e)
    ensures Consistent(Happen(d, e)) && Harmless(d, e)
  {
  }

  /** At every intermediate point of any interleaving of operations on different hashes, with any failures
      and crashes, every file has a row. */
  lemma {:induction false} FilesAlwaysHaveRows(d: Disk, es: seq<Effect>)
    requires Consistent(d) && AllPossible(d, es) && AllAlone(d, es)
    ensures Consistent(AllHappen(d, es)) && AllHappen(d, es).files <= AllHappen(d, es).rows
    decreases |es|
  {
    hide Possible, Alone, Happen;
    if es != [] {
      EffectKeepsConsistent(d, es[0]);
      FilesAlwaysHaveRows(Happen(d, es[0]), es[1..]);
    }
  }

  /** When operations on one hash overlap it can fail, from any state that stores the hash: a put that runs
      between the two effects of a deletion loses the row of the file it wrote. */
  lemma OverlapLeavesOrphan(d: Disk, h: Hash, drop: nat, put: nat)
    requires h in d.files && drop != put && drop !in d.tasks && put !in d.tasks
    ensures var es := [DeleteFile(drop, h, false), FindMissing(put, h), WriteRow(put, false), WriteFile(put, false),
                       DeleteRow(drop, false)];
            && AllPossible(d, es) && h in AllHappen(d, es).files && h !in AllHappen(d, es).rows
  {
    hide AllPossible, AllHappen;
    var es := [DeleteFile(drop, h, false), FindMissing(put, h), WriteRow(put, false), WriteFile(put, false),
               DeleteRow(drop, false)];
    Unfold(d, es);
    assert es[1..] == [FindMissing(put, h), WriteRow(put, false), WriteFile(put, false), DeleteRow(drop, false)];
    var d' := Happen(d, es[0]);
    Walk(d', es[1..]);
  }

  // ---- The operations are these effects in a row ----

  function DiskOf(c: Cache): Disk { Disk(c.rows.Keys, c.files, map[]) }

  function PutEffects(op: nat, c: Cache, h: Hash, f: PutFaults): seq<Effect> {
    if f.lookup || h in c.files then []
    else if f.row then [FindMissing(op, h), WriteRow(op, true)]
    else if f.write then [FindMissing(op, h), WriteRow(op, false), WriteFile(op, true), TakeBackRow(op, f.rollback)]
    else [FindMissing(op, h), WriteRow(op, false), WriteFile(op, false)]
  }

  function DropEffects(op: nat, h: Hash, f: DropFaults): seq<Effect> {
    if f.backend then [DeleteFile(op, h, true)] else [DeleteFile(op, h, false), DeleteRow(op, f.row)]
  }

  lemma Unfold(d: Disk, es: seq<Effect>)
    requires es != []
    ensures AllPossible(d, es) <==> Possible(d, es[0]) && AllPossible(Happen(d, es[0]), es[1..])
    ensures AllPossible(d, es) ==> AllHappen(d, es) == AllHappen(Happen(d, es[0]), es[1..])
  {
  }

  lemma NoEffects(d: Disk)
    ensures AllPossible(d, []) && AllHappen(d, []) == d
  {
  }

  /** Unfolds a run of two to four effects. */
  lemma Walk(d: Disk, es: seq<Effect>)
    requires 2 <= |es| <= 4
    requires Possible(d, es[0])
    requires var a := Happen(d, es[0]);
             Possible(a, es[1])
             && (var b := Happen(a, es[1]);
                 |es| > 2 ==> Possible(b, es[2]) && (|es| > 3 ==> Possible(Happen(b, es[2]), es[3])))
    ensures AllPossible(d, es)
    ensures var b := Happen(Happen(d, es[0]), es[1]);
            AllHappen(d, es)
            == if |es| == 2 then b else if |es| == 3 then Happen(b, es[2]) else Happen(Happen(b, es[2]), es[3])
  {
    hide Happen, Possible;
    Unfold(d, es);
    var a := Happen(d, es[0]);
    Unfold(a, es[1..]);
    var b := Happen(a, es[1]);
    assert es[1..][1..] == es[2..];
    if |es| > 2 {
      Unfold(b, es[2..]);
      assert es[2..][1..] == es[3..];
      if |es| > 3 {
        Unfold(Happen(b, es[2]), es[3..]);
        assert es[3..][1..] == [];
      }
    }
  }

  lemma PutIsItsEffects(op: nat, c: Cache, h: Hash, size: nat, now: Time, f: PutFaults)
    ensures var es := PutEffects(op, c, h, f);
            AllPossible(DiskOf(c), es) && AllHappen(DiskOf(c), es) == DiskOf(Put(c, h, size, now, f).0)
  {
    hide AllPossible, AllHappen;
    var es := PutEffects(op, c, h, f);
    var d := DiskOf(c);
    PutMembers(c, h, size, now, f);
    NoEffects(d);
    if es != [] {
      Walk(d, es);
    }
  }

  lemma PutMembers(c: Cache, h: Hash, size: nat, now: Time, f: PutFaults)
    ensures var p := Put(c, h, size, now, f).0;
            && p.files == (if f.lookup || f.row || f.write then c.files else c.files + {h})
            && p.rows.Keys == (if f.lookup || h in c.files || f.row then c.rows.Keys
                               else if f.write && !f.rollback then c.rows.Keys - {h} else c.rows.Keys + {h})
  {
    hide Admit;
    AdmitKeepsDisk(c.(rows := c.rows[h := BlobEntry(size, now, now, 0, 0)], files := c.files + {h}), h, size, f.admit);
  }

  lemma DropIsItsEffects(op: nat, c: Cache, h: Hash, f: DropFaults)
    ensures var es := DropEffects(op, h, f);
            && AllPossible(DiskOf(c), es)
            && AllHappen(DiskOf(c), es) == DiskOf(DeleteContent(c, h, f).0)
            && (!f.get ==> AllHappen(DiskOf(c), es) == DiskOf(CollectBlob(c, h, f).0))
            && AllHappen(DiskOf(c), es) == DiskOf(DeleteFromBackend(c, h, DeleteFaults(f.backend, f.row)).0)
  {
    hide AllPossible, AllHappen, Remove;
    var es := DropEffects(op, h, f);
    var d := DiskOf(c);
    var kept := c.(files := c.files - {h}, rows := if f.row then c.rows else c.rows - {h});
    RemoveKeepsDisk(kept, h, RowSize(c, h, f.get), f.remove);
    RemoveKeepsDisk(kept, h, RowSize(c, h, false), f.remove);
    if f.backend {
      Unfold(d, es);
      assert es[1..] == [];
      NoEffects(Happen(d, es[0]));
    } else {
      Walk(d, es);
    }
  }
}
