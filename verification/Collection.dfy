/** Repeated collections with a batch limit: how fast they drain, and which blobs starve behind others that
    cannot be deleted. */
module Collection {
  import opened ByteStrings
  import opened Buckets
  import opened Fifo
  import opened Blobs
  import opened Envelopes
  import opened MetaDB
  import opened CacheSteps
  import opened StoreSteps
  import opened Accounting
  import opened Outcomes

  /** The blobs that a collection may take: unreferenced and past their retention. */
  function Takeable(rows: Rows, before: Option<Time>): set<Hash> {
    set h | h in rows && Collectable(rows[h], before)
  }

  /** Those of them that the query meets before a hash. */
  function Ahead(rows: Rows, before: Option<Time>, h: Hash): set<Hash> {
    set g | g in Takeable(rows, before) && Less(g.text, h.text)
  }

  // ---- Which blobs one query selects ----

  lemma {:induction false} CollectablesAscend(rows: Rows, before: Option<Time>, q: seq<Hash>)
    requires Ascending(q)
    ensures Ascending(Collectables(rows, before, q))
  {
    hide Collectable, Less;
    if q != [] {
      var n := |q| - 1;
      CollectablesAscend(rows, before, q[..n]);
      CollectablesMembers(rows, before, q[..n]);
      var r := Collectables(rows, before, q[..n]);
      forall i | 0 <= i < |r| ensures Less(r[i].text, q[n].text) {
        assert r[i] in q[..n];
        var j :| 0 <= j < n && q[j] == r[i];
      }
    }
  }

  /** In an ascending sequence an entry's index is the number of entries before it in order. */
  lemma IndexIsRank(q: seq<Hash>, j: nat, ahead: set<Hash>)
    requires Ascending(q) && NoDup(q) && j < |q|
    requires forall g :: g in ahead <==> g in q && Less(g.text, q[j].text)
    ensures |ahead| == j && Elems(q[..j]) == ahead
  {
    hide Less;
    var r := q[..j];
    forall g ensures g in r <==> g in ahead {
      if g in r {
        var i :| 0 <= i < j && q[i] == g;
      }
      if g in ahead {
        var i :| 0 <= i < |q| && q[i] == g;
        if i > j { LessAsymmetric(q[j].text, q[i].text); }
        if i == j { LessIrreflexive(g.text); }
        assert r[i] == g;
      }
    }
    SizeOfMembers(r, ahead);
  }

  lemma LessIrreflexive(a: Bytes)
    ensures !Less(a, a)
  {
    if Less(a, a) { LessAsymmetric(a, a); }
  }

  /** The selection before the limit is taken. */
  function Candidates(rows: Rows, before: Option<Time>): seq<Hash> {
    Collectables(rows, before, InOrder(rows.Keys))
  }

  lemma CandidatesFacts(rows: Rows, before: Option<Time>)
    ensures var q := Candidates(rows, before);
            Ascending(q) && NoDup(q) && (forall h :: h in q <==> h in Takeable(rows, before))
            && |q| == |Takeable(rows, before)|
  {
    hide InOrder, Collectables, Collectable, Less, Ascending, NoDup;
    InOrderMembers(rows.Keys);
    CollectablesMembers(rows, before, InOrder(rows.Keys));
    CollectablesAscend(rows, before, InOrder(rows.Keys));
    SizeOfMembers(Candidates(rows, before), Takeable(rows, before));
  }

  /** A query selects a blob if and only if fewer than `limit` others come before it. */
  lemma SelectedExactly(rows: Rows, before: Option<Time>, limit: int, h: Hash)
    requires h in Takeable(rows, before)
    ensures h in Unreferenced(rows, before, limit) <==> limit <= 0 || |Ahead(rows, before, h)| < limit
  {
    hide InOrder, Collectables, Takeable, Less, Ascending, NoDup;
    var q := Candidates(rows, before);
    CandidatesFacts(rows, before);
    var j :| 0 <= j < |q| && q[j] == h;
    IndexIsRank(q, j, Ahead(rows, before, h));
    if 0 < limit < |q| { AtMostOnce(q, j, limit); }
  }

  lemma AtMostOnce(q: seq<Hash>, j: nat, n: nat)
    requires NoDup(q) && j < |q| && n <= |q|
    ensures q[j] in q[..n] <==> j < n
  {
    if j < n { assert q[..n][j] == q[j]; }
  }

  /** It selects as many as there are, up to the limit. */
  lemma SelectedCount(rows: Rows, before: Option<Time>, limit: nat)
    requires limit > 0
    ensures var n := |Takeable(rows, before)|;
            |Unreferenced(rows, before, limit)| == if n < limit then n else limit
  {
    hide InOrder, Collectables, Takeable, Ascending, NoDup;
    CandidatesFacts(rows, before);
  }

  /** Without a limit the query selects exactly the unreferenced blobs that were neither stored nor touched since
      the cutoff. */
  lemma SelectedByAge(rows: Rows, t: Time, h: Hash)
    ensures h in Unreferenced(rows, Some(t), 0)
        <==> h in rows && rows[h].refCount == 0 && rows[h].lastAccess <= t && rows[h].cachedAt <= t
    ensures h in Unreferenced(rows, None, 0) <==> h in rows && rows[h].refCount == 0
  {
    hide Unreferenced;
    UnreferencedMembers(rows, Some(t), 0);
    UnreferencedMembers(rows, None, 0);
  }

  /** A blob stored or read after the cutoff is spared, with any limit. */
  lemma FreshIsSpared(c: Cache, h: Hash, size: nat, now: Time, f: PutFaults, t: Time, limit: int)
    requires t < now
    ensures var (d, result) := Put(c, h, size, now, f);
            result.Created? || (result.Existed? && !f.touch && h in c.rows) ==>
              h in d.rows && h !in Unreferenced(d.rows, Some(t), limit)
    ensures h in c.rows ==> h !in Unreferenced(Touched(c.rows, h, now), Some(t), limit)
  {
    hide Unreferenced, Admit;
    PutOutcome(c, h, size, now, f);
    UnreferencedMembers(Put(c, h, size, now, f).0.rows, Some(t), limit);
    if h in c.rows { UnreferencedMembers(Touched(c.rows, h, now), Some(t), limit); }
  }

  // ---- One phase, and many ----

  predicate Deletes(plan: DropPlan, h: Hash) { !plan(h).get && !plan(h).backend && !plan(h).row }

  /** `n` phases one after the other; the same deletions fail in each. */
  function Phases(c: Cache, before: Option<Time>, limit: int, plan: DropPlan, n: nat): Cache {
    if n == 0 then c else CollectPhase(Phases(c, before, limit, plan, n - 1), before, limit, false, plan).0
  }

  lemma PhaseRows(c: Cache, before: Option<Time>, limit: int, plan: DropPlan)
    ensures var d := CollectPhase(c, before, limit, false, plan).0;
            && (forall h :: h in d.rows <==>
                  h in c.rows && !(h in Unreferenced(c.rows, before, limit) && Deletes(plan, h)))
            && (forall h :: h in d.rows ==> d.rows[h] == c.rows[h])
  {
    hide Unreferenced, CollectAll, Collected, Unfiled;
    CollectErases(c, Unreferenced(c.rows, before, limit), plan);
  }

  lemma {:induction false} FirstPhase(c: Cache, before: Option<Time>, limit: int, plan: DropPlan, n: nat)
    ensures Phases(c, before, limit, plan, n + 1)
         == Phases(CollectPhase(c, before, limit, false, plan).0, before, limit, plan, n)
  {
    hide CollectPhase;
    if n > 0 { FirstPhase(c, before, limit, plan, n - 1); }
  }

  // ---- Draining ----

  lemma PhaseLeaves(c: Cache, before: Option<Time>, limit: nat, plan: DropPlan)
    requires limit > 0 && forall h :: Deletes(plan, h)
    ensures var n := |Takeable(c.rows, before)|;
            |Takeable(CollectPhase(c, before, limit, false, plan).0.rows, before)| == if n < limit then 0 else n - limit
  {
    hide Unreferenced, CollectPhase, Collectable, NoDup;
    var d := CollectPhase(c, before, limit, false, plan).0;
    var taken := Unreferenced(c.rows, before, limit);
    PhaseRows(c, before, limit, plan);
    UnreferencedMembers(c.rows, before, limit);
    SelectedCount(c.rows, before, limit);
    SizeOfMembers(taken, Elems(taken));
    assert Elems(taken) <= Takeable(c.rows, before);
    assert Takeable(d.rows, before) == Takeable(c.rows, before) - Elems(taken);
  }

  /** When nothing fails, each phase takes `limit` blobs until none is left. */
  lemma {:induction false} PhasesLeave(c: Cache, before: Option<Time>, limit: nat, plan: DropPlan, n: nat)
    requires limit > 0 && forall h :: Deletes(plan, h)
    ensures var all := |Takeable(c.rows, before)|;
            |Takeable(Phases(c, before, limit, plan, n).rows, before)|
            == if all < n * limit then 0 else all - n * limit
  {
    hide CollectPhase, Takeable, Deletes;
    if n > 0 {
      PhasesLeave(c, before, limit, plan, n - 1);
      PhaseLeaves(Phases(c, before, limit, plan, n - 1), before, limit, plan);
      assert n * limit == (n - 1) * limit + limit;
    }
  }

  /** So `n` phases drain everything if and only if `n` times the limit is at least what there was. */
  lemma DrainedExactly(c: Cache, before: Option<Time>, limit: nat, plan: DropPlan, n: nat)
    requires limit > 0 && forall h :: Deletes(plan, h)
    ensures Takeable(Phases(c, before, limit, plan, n).rows, before) == {}
        <==> n * limit >= |Takeable(c.rows, before)|
  {
    hide Phases, Takeable, Deletes;
    PhasesLeave(c, before, limit, plan, n);
  }

  // ---- Starvation ----

  /** The blobs before a hash that cannot be deleted. */
  function StuckAhead(rows: Rows, before: Option<Time>, plan: DropPlan, h: Hash): set<Hash> {
    set g | g in Ahead(rows, before, h) && !Deletes(plan, g)
  }

  /** A phase leaves the stuck ones before a hash, and takes of the others before it those that it selects. */
  lemma PhaseAhead(c: Cache, before: Option<Time>, limit: int, plan: DropPlan, h: Hash)
    ensures var d := CollectPhase(c, before, limit, false, plan).0;
            && StuckAhead(d.rows, before, plan, h) == StuckAhead(c.rows, before, plan, h)
            && (forall g :: g in Ahead(d.rows, before, h) <==>
                  (g in Ahead(c.rows, before, h) && !(g in Unreferenced(c.rows, before, limit) && Deletes(plan, g))))
  {
    hide Unreferenced, CollectPhase, Collectable, Less, Deletes;
    PhaseRows(c, before, limit, plan);
  }

  /** Where a hash is out of reach of the query, some of the blobs before it go, unless all selected ones are
      stuck. */
  lemma SomeAheadGoes(c: Cache, before: Option<Time>, limit: nat, plan: DropPlan, h: Hash)
    requires limit > 0 && h in Takeable(c.rows, before)
    requires |StuckAhead(c.rows, before, plan, h)| < limit <= |Ahead(c.rows, before, h)|
    ensures var d := CollectPhase(c, before, limit, false, plan).0;
            |Ahead(d.rows, before, h)| < |Ahead(c.rows, before, h)|
  {
    hide Unreferenced, CollectPhase, Takeable, Less, Deletes, NoDup;
    var d := CollectPhase(c, before, limit, false, plan).0;
    var taken := Elems(Unreferenced(c.rows, before, limit));
    var stuck := StuckAhead(c.rows, before, plan, h);
    SelectedAreAhead(c.rows, before, limit, h);
    PhaseAhead(c, before, limit, plan, h);
    if taken <= stuck {
      SubsetSize(taken, stuck);
    } else {
      var g :| g in taken && g !in stuck;
      assert g in Ahead(c.rows, before, h) && g !in Ahead(d.rows, before, h);
      assert Ahead(d.rows, before, h) <= Ahead(c.rows, before, h) - {g};
      SubsetSize(Ahead(d.rows, before, h), Ahead(c.rows, before, h) - {g});
    }
  }

  lemma SubsetSize(a: set<Hash>, b: set<Hash>)
    requires a <= b
    ensures |a| <= |b|
  {
    assert b == a + (b - a);
  }

  lemma SelectedAreAhead(rows: Rows, before: Option<Time>, limit: nat, h: Hash)
    requires limit > 0 && h in Takeable(rows, before) && limit <= |Ahead(rows, before, h)|
    ensures var taken := Elems(Unreferenced(rows, before, limit));
            taken <= Ahead(rows, before, h) && |taken| == limit
  {
    hide InOrder, Collectables, Takeable, Less, NoDup, Ascending;
    var q := Candidates(rows, before);
    var ahead := Ahead(rows, before, h);
    CandidatesFacts(rows, before);
    var j :| 0 <= j < |q| && q[j] == h;
    IndexIsRank(q, j, ahead);
    assert q[..j][..limit] == q[..limit];
    assert Elems(q[..limit]) <= Elems(q[..j]);
    PrefixNoDup(q, limit);
    SizeOfMembers(q[..limit], Elems(q[..limit]));
  }

  lemma PrefixNoDup(q: seq<Hash>, n: nat)
    requires NoDup(q) && n <= |q|
    ensures NoDup(q[..n])
  {
  }

  lemma {:induction false} RowsShrink(c: Cache, before: Option<Time>, limit: int, plan: DropPlan, n: nat, h: Hash)
    requires h !in c.rows
    ensures h !in Phases(c, before, limit, plan, n).rows
  {
    hide CollectPhase;
    if n > 0 {
      RowsShrink(c, before, limit, plan, n - 1, h);
      PhaseRows(Phases(c, before, limit, plan, n - 1), before, limit, plan);
    }
  }

  lemma PhaseKeepsTakeable(c: Cache, before: Option<Time>, limit: int, plan: DropPlan, h: Hash)
    requires h in Takeable(c.rows, before)
    ensures var d := CollectPhase(c, before, limit, false, plan).0;
            h in d.rows ==> h in Takeable(d.rows, before)
  {
    hide CollectPhase, Unreferenced, Collectable;
    PhaseRows(c, before, limit, plan);
  }

  /** With fewer stuck blobs before it than the limit, a blob is collected after at most as many phases as there
      are blobs before it, and one. */
  lemma {:induction false} CollectedInTime(c: Cache, before: Option<Time>, limit: nat, plan: DropPlan, h: Hash, n: nat)
    requires limit > 0 && h in Takeable(c.rows, before) && Deletes(plan, h)
    requires |StuckAhead(c.rows, before, plan, h)| < limit && |Ahead(c.rows, before, h)| <= n
    ensures h !in Phases(c, before, limit, plan, n + 1).rows
    decreases n
  {
    hide CollectPhase, Takeable, Ahead, StuckAhead, Phases, Unreferenced, Deletes;
    var d := CollectPhase(c, before, limit, false, plan).0;
    FirstPhase(c, before, limit, plan, n);
    PhaseRows(c, before, limit, plan);
    SelectedExactly(c.rows, before, limit, h);
    PhaseKeepsTakeable(c, before, limit, plan, h);
    PhaseAhead(c, before, limit, plan, h);
    if h !in d.rows {
      RowsShrink(d, before, limit, plan, n, h);
    } else {
      SomeAheadGoes(c, before, limit, plan, h);
      CollectedInTime(d, before, limit, plan, h, n - 1);
    }
  }

  /** With at least as many stuck blobs before it as the limit, a blob is never collected. */
  lemma {:induction false} NeverCollected(c: Cache, before: Option<Time>, limit: nat, plan: DropPlan, h: Hash, n: nat)
    requires limit > 0 && h in Takeable(c.rows, before) && |StuckAhead(c.rows, before, plan, h)| >= limit
    ensures var d := Phases(c, before, limit, plan, n);
            h in Takeable(d.rows, before) && |StuckAhead(d.rows, before, plan, h)| >= limit
  {
    hide CollectPhase, Takeable, Ahead, Unreferenced, Deletes, StuckAhead;
    if n > 0 {
      NeverCollected(c, before, limit, plan, h, n - 1);
      var p := Phases(c, before, limit, plan, n - 1);
      SelectedExactly(p.rows, before, limit, h);
      StuckAreAhead(p.rows, before, plan, h);
      PhaseRows(p, before, limit, plan);
      assert h in p.rows by { TakeableHasRow(p.rows, before, h); }
      PhaseKeepsTakeable(p, before, limit, plan, h);
      PhaseAhead(p, before, limit, plan, h);
    }
  }

  lemma StuckAreAhead(rows: Rows, before: Option<Time>, plan: DropPlan, h: Hash)
    ensures |StuckAhead(rows, before, plan, h)| <= |Ahead(rows, before, h)|
  {
    hide Ahead, Deletes;
    SubsetSize(StuckAhead(rows, before, plan, h), Ahead(rows, before, h));
  }

  lemma TakeableHasRow(rows: Rows, before: Option<Time>, h: Hash)
    requires h in Takeable(rows, before)
    ensures h in rows
  {
  }

  /** A blob that can be deleted is ever collected if and only if fewer than `limit` blobs that cannot be
      deleted come before it in the order of the query. */
  lemma CollectedExactly(c: Cache, before: Option<Time>, limit: nat, plan: DropPlan, h: Hash)
    requires limit > 0 && h in Takeable(c.rows, before) && Deletes(plan, h)
    ensures (exists n :: h !in Phases(c, before, limit, plan, n).rows)
        <==> |StuckAhead(c.rows, before, plan, h)| < limit
    ensures |StuckAhead(c.rows, before, plan, h)| < limit ==>
              h !in Phases(c, before, limit, plan, |Ahead(c.rows, before, h)| + 1).rows
  {
    hide Takeable, Ahead, StuckAhead, Phases, Deletes;
    if |StuckAhead(c.rows, before, plan, h)| < limit {
      CollectedInTime(c, before, limit, plan, h, |Ahead(c.rows, before, h)|);
    } else {
      forall n ensures h in Phases(c, before, limit, plan, n).rows {
        NeverCollected(c, before, limit, plan, h, n);
        TakeableHasRow(Phases(c, before, limit, plan, n).rows, before, h);
      }
    }
  }
}
