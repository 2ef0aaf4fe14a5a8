/** What the content store and the garbage collector do to the cache state: put, delete, collect, sweep. */
module StoreSteps {
  import opened ByteStrings
  import opened Buckets
  import opened Fifo
  import opened Blobs
  import opened Envelopes
  import opened MetaDB
  import opened CacheSteps

  // ---- Storing content ----

  datatype PutFaults = PutFaults(lookup: bool, touch: bool, row: bool, write: bool, rollback: bool, admit: AdmitFaults)

  const NO_PUT_FAULT := PutFaults(false, false, false, false, false, AdmitFaults(false, false))

  datatype PutResult = PutFailed | Existed | Created

  /** The row is written before the file, and taken back when the file cannot be written. */
  function Put(c: Cache, h: Hash, size: nat, now: Time, f: PutFaults): (Cache, PutResult) {
    if f.lookup then (c, PutFailed)
    else if h in c.files then
      (if !f.touch && h in c.rows then c.(rows := Touched(c.rows, h, now)) else c, Existed)
    else if f.row then (c, PutFailed)
    else
      var c' := c.(rows := c.rows[h := BlobEntry(size, now, now, 0, 0)]);
      if f.write then (if f.rollback then c' else c'.(rows := c'.rows - {h}), PutFailed)
      else (Admit(c'.(files := c.files + {h}), h, size, f.admit), Created)
  }

  // ---- Deleting content ----

  datatype DropFaults = DropFaults(get: bool, backend: bool, row: bool, remove: RemoveFaults)

  const NO_DROP_FAULT := DropFaults(false, false, false, NO_REMOVE_FAULT)

  function RowSize(c: Cache, h: Hash, unreadable: bool): nat {
    if !unreadable && h in c.rows then c.rows[h].size else 0
  }

  /** `CAFS.Delete`: after the file is gone, failures of the row are ignored. */
  function DeleteContent(c: Cache, h: Hash, f: DropFaults): (Cache, bool) {
    if f.backend then (c, false)
    else
      var c' := c.(files := c.files - {h}, rows := if f.row then c.rows else c.rows - {h});
      (Remove(c', h, RowSize(c, h, f.get), f.remove), true)
  }

  /** The collector's `deleteBlob`: any failure stops it, and the hook runs only after both deletions. */
  function CollectBlob(c: Cache, h: Hash, f: DropFaults): (Cache, Option<nat>) {
    if f.get || f.backend then (c, None)
    else if f.row then (c.(files := c.files - {h}), None)
    else
      var size := RowSize(c, h, false);
      (Remove(c.(files := c.files - {h}, rows := c.rows - {h}), h, size, f.remove), Some(size))
  }

  /** The state without a hash in any of its parts. */
  function Erased(c: Cache, h: Hash): Cache {
    Remove(c.(files := c.files - {h}, rows := c.rows - {h}), h, RowSize(c, h, false), NO_REMOVE_FAULT)
  }

  type DropPlan = Hash -> DropFaults

  datatype Tally = Tally(deleted: nat, bytes: nat, errors: nat)

  /** The collector's loop over the selected hashes. */
  function CollectAll(c: Cache, hs: seq<Hash>, plan: DropPlan): (Cache, Tally)
    decreases |hs|
  {
    if hs == [] then (c, Tally(0, 0, 0))
    else
      var n := |hs| - 1;
      var (c', t) := CollectAll(c, hs[..n], plan);
      var (d, size) := CollectBlob(c', hs[n], plan(hs[n]));
      (d, if size.Some? then Tally(t.deleted + 1, t.bytes + size.value, t.errors) else t.(errors := t.errors + 1))
  }

  /** One collection phase: a query, then the loop. */
  function CollectPhase(c: Cache, before: Option<Time>, limit: int, queryFails: bool, plan: DropPlan): (Cache, Tally) {
    if queryFails then (c, Tally(0, 0, 1)) else CollectAll(c, Unreferenced(c.rows, before, limit), plan)
  }

  lemma AdmitKeepsDisk(c: Cache, h: Hash, size: nat, f: AdmitFaults)
    ensures var d := Admit(c, h, size, f); d.rows == c.rows && d.files == c.files
  {
  }

  lemma RemoveKeepsDisk(c: Cache, h: Hash, size: nat, f: RemoveFaults)
    ensures var d := Remove(c, h, size, f); d.rows == c.rows && d.files == c.files
  {
  }

  // ---- Sweeping files that have no row ----

  /** Rows written before references carried an algorithm prefix have the plain digest as their key. */
  function PlainDigest(h: Hash): Hash { if |h.text| >= 7 then Hash(h.text[7..]) else h }

  predicate HasRow(rows: Rows, h: Hash) { h in rows || PlainDigest(h) in rows }

  /** Whether the listing fails, whose row cannot be looked up under either key, whose file not deleted. */
  datatype SweepFaults =
    SweepFaults(list: bool, unreadable: set<Hash>, unreadablePlain: set<Hash>, undeletable: set<Hash>)

  const NO_SWEEP_FAULT := SweepFaults(false, {}, {}, {})

  datatype SweepFate = Spared | Uncertain | Stuck | Deleted

  /** The plain key is looked up only when the prefixed one has no row. */
  function FateOf(rows: Rows, h: Hash, f: SweepFaults): SweepFate {
    if h in f.unreadable then Uncertain
    else if h in rows then Spared
    else if h in f.unreadablePlain then Uncertain
    else if PlainDigest(h) in rows then Spared
    else if h in f.undeletable then Stuck
    else Deleted
  }

  /** The files removed from a listing, within a budget that only successful deletions use up. */
  function Swept(rows: Rows, listing: seq<Hash>, budget: int, f: SweepFaults): seq<Hash> {
    if listing == [] || budget <= 0 then []
    else if FateOf(rows, listing[0], f).Deleted? then [listing[0]] + Swept(rows, listing[1..], budget - 1, f)
    else Swept(rows, listing[1..], budget, f)
  }

  /** The failed lookups and deletions met on the way. */
  function SweepErrors(rows: Rows, listing: seq<Hash>, budget: int, f: SweepFaults): nat {
    if listing == [] || budget <= 0 then 0
    else
      match FateOf(rows, listing[0], f)
      case Deleted => SweepErrors(rows, listing[1..], budget - 1, f)
      case Spared => SweepErrors(rows, listing[1..], budget, f)
      case _ => 1 + SweepErrors(rows, listing[1..], budget, f)
  }

  function Orphans(rows: Rows, files: set<Hash>): set<Hash> { set h | h in files && !HasRow(rows, h) }

  function Elems(hs: seq<Hash>): set<Hash> { set h | h in hs }

  lemma ElemsPush(hs: seq<Hash>, h: Hash)
    ensures Elems(hs + [h]) == Elems(hs) + {h}
  {
  }

  function SweptFrom(c: Cache, batchSize: int, f: SweepFaults): seq<Hash> {
    if f.list then [] else Swept(c.rows, InOrder(c.files), batchSize, f)
  }

  function SweepOrphans(c: Cache, batchSize: int, f: SweepFaults): Cache {
    c.(files := c.files - Elems(SweptFrom(c, batchSize, f)))
  }

  /** What the phase reports, for the file sizes that the backend gives. */
  ghost function SweepReport(c: Cache, batchSize: int, f: SweepFaults, size: Hash -> nat): Tally {
    var swept := SweptFrom(c, batchSize, f);
    Tally(|swept|, Sum(swept, size), if f.list then 1 else SweepErrors(c.rows, InOrder(c.files), batchSize, f))
  }

  lemma {:induction false} SweptMembers(rows: Rows, listing: seq<Hash>, budget: nat, f: SweepFaults)
    ensures forall h :: h in Swept(rows, listing, budget, f) ==> h in listing && !HasRow(rows, h)
    ensures |Swept(rows, listing, budget, f)| <= budget
    ensures NoDup(listing) ==> NoDup(Swept(rows, listing, budget, f))
  {
    if listing != [] && budget > 0 {
      var h, rest := listing[0], listing[1..];
      assert listing == [h] + rest;
      if FateOf(rows, h, f).Deleted? {
        SweptMembers(rows, rest, budget - 1, f);
        if NoDup(listing) { FirstIsNew(h, Swept(rows, rest, budget - 1, f)); }
      } else {
        SweptMembers(rows, rest, budget, f);
      }
    }
  }

  lemma FirstIsNew(h: Hash, q: seq<Hash>)
    requires NoDup(q) && h !in q
    ensures NoDup([h] + q)
  {
  }

  /** What one file of the listing adds. */
  lemma SweepStep(rows: Rows, listing: seq<Hash>, i: nat, budget: int, f: SweepFaults)
    requires i < |listing| && budget > 0
    ensures var h := listing[i];
            var fate := FateOf(rows, h, f);
            && Swept(rows, listing[i..], budget, f)
               == (if fate.Deleted? then [h] + Swept(rows, listing[i + 1..], budget - 1, f)
                   else Swept(rows, listing[i + 1..], budget, f))
            && SweepErrors(rows, listing[i..], budget, f)
               == (if fate.Deleted? then SweepErrors(rows, listing[i + 1..], budget - 1, f)
                   else (if fate.Spared? then 0 else 1) + SweepErrors(rows, listing[i + 1..], budget, f))
  {
    hide FateOf;
    assert listing[i..][1..] == listing[i + 1..];
  }

  /** A sweep that did not use up its budget has taken or failed on every orphan it met. */
  lemma {:induction false} SweptLeavesOnlyFailures(rows: Rows, listing: seq<Hash>, budget: nat, f: SweepFaults)
    requires |Swept(rows, listing, budget, f)| < budget
    ensures forall h :: h in listing && FateOf(rows, h, f).Deleted? ==> h in Swept(rows, listing, budget, f)
  {
    hide FateOf;
    if listing != [] {
      var h, rest := listing[0], listing[1..];
      assert listing == [h] + rest;
      SweptLeavesOnlyFailures(rows, rest, if FateOf(rows, h, f).Deleted? then budget - 1 else budget, f);
    }
  }

  /** The sweep never deletes a file that has a row; when at most `batchSize` orphans exist, it leaves only
      those whose lookup or deletion failed. */
  lemma SweepRestoresRows(c: Cache, batchSize: nat, f: SweepFaults)
    ensures var d := SweepOrphans(c, batchSize, f);
            && d.files <= c.files && (forall h :: h in c.files && HasRow(c.rows, h) ==> h in d.files)
            && (!f.list && |Orphans(c.rows, c.files)| <= batchSize ==>
                  forall h :: h in Orphans(d.rows, d.files) ==> h in f.unreadable + f.unreadablePlain + f.undeletable)
            && (f == NO_SWEEP_FAULT && |Orphans(c.rows, c.files)| <= batchSize ==> Orphans(d.rows, d.files) == {})
  {
    hide InOrder, HasRow, Swept, FateOf, NoDup;
    var listing := InOrder(c.files);
    var s := Swept(c.rows, listing, batchSize, f);
    var orphans := Orphans(c.rows, c.files);
    InOrderMembers(c.files);
    SweptMembers(c.rows, listing, batchSize, f);
    if !f.list && |orphans| <= batchSize {
      SizeOfMembers(s, Elems(s));
      assert Elems(s) <= orphans;
      if |s| == batchSize {
        assert orphans == Elems(s) + (orphans - Elems(s));
        assert |orphans - Elems(s)| == 0;
      } else {
        SweptLeavesOnlyFailures(c.rows, listing, batchSize, f);
        forall h | h in orphans && h !in s ensures h in f.unreadable + f.unreadablePlain + f.undeletable {
          OrphanFate(c.rows, h, f);
        }
      }
    }
  }

  lemma OrphanFate(rows: Rows, h: Hash, f: SweepFaults)
    ensures FateOf(rows, h, f).Deleted?
        <==> !HasRow(rows, h) && h !in f.unreadable + f.unreadablePlain + f.undeletable
  {
  }

  /** What the phase reports as deleted is what it deleted, with its size; without failures it reports no
      error. */
  lemma SweepReportsDeletions(c: Cache, batchSize: nat, f: SweepFaults, size: Hash -> nat)
    ensures var d, t := SweepOrphans(c, batchSize, f), SweepReport(c, batchSize, f, size);
            && |c.files| == |d.files| + t.deleted
            && Sum(InOrder(c.files), size) == Sum(InOrder(d.files), size) + t.bytes
            && (f == NO_SWEEP_FAULT ==> t.errors == 0)
  {
    hide InOrder, Swept, SweepErrors, NoDup, Sum;
    var s := SweptFrom(c, batchSize, f);
    var d := SweepOrphans(c, batchSize, f);
    InOrderMembers(c.files);
    InOrderMembers(d.files);
    SweptMembers(c.rows, InOrder(c.files), batchSize, f);
    assert NoDup(s) by { NoDupNone(); }
    var kept := InOrder(d.files);
    JoinNoDup(kept, s);
    SumConcat(kept, s, size);
    SumPermutation(kept + s, InOrder(c.files), size);
    SizeOfMembers(kept + s, c.files);
    SizeOfMembers(kept, d.files);
    if f == NO_SWEEP_FAULT { NoSweepErrors(c.rows, InOrder(c.files), batchSize); }
  }

  lemma {:induction false} NoSweepErrors(rows: Rows, listing: seq<Hash>, budget: nat)
    ensures SweepErrors(rows, listing, budget, NO_SWEEP_FAULT) == 0
  {
    if listing != [] && budget > 0 {
      NoSweepErrors(rows, listing[1..], budget);
      NoSweepErrors(rows, listing[1..], budget - 1);
    }
  }
}
