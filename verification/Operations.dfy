/** Verifying and rebuilding reference counts from the stored envelopes, on any database state. */
module Operations {
  import opened ByteStrings
  import opened Fifo
  import opened Blobs
  import opened Envelopes
  import opened MetaState
  import opened MetaDB
  import opened MetaRuns

  datatype Discrepancy = Discrepancy(hash: Hash, stored: nat, computed: nat)

  /** All references of the listed envelopes, counted with repetition. */
  function AllRefs(envelopes: map<Bytes, Envelope>, ks: seq<Bytes>): multiset<Hash> {
    if ks == [] then multiset{}
    else
      var k := ks[|ks| - 1];
      AllRefs(envelopes, ks[..|ks| - 1]) + (if k in envelopes then multiset(envelopes[k].blobRefs) else multiset{})
  }

  function References(db: DB): multiset<Hash> { AllRefs(db.envelopes, SortedKeys(db.envelopes.Keys)) }

  // The source counts in one transaction and looks at the rows in a later one: `total` is what it counted,
  // `db` the database it then finds.

  /** What a check reports: a row whose count differs, or a referenced hash without a row. */
  ghost predicate IsDiscrepancyFrom(total: multiset<Hash>, db: DB, d: Discrepancy) {
    && d.computed == total[d.hash]
    && d.stored == (if d.hash in db.blobs then db.blobs[d.hash].refCount else 0)
    && d.stored != d.computed
  }

  function RebuiltFrom(total: multiset<Hash>, db: DB): DB {
    db.(blobs := map h | h in db.blobs :: db.blobs[h].(refCount := total[h]))
  }

  function WrongFrom(total: multiset<Hash>, rows: Rows): set<Hash> {
    set h | h in rows && rows[h].refCount != total[h]
  }

  // The same when nothing lands in between.

  ghost predicate IsDiscrepancy(db: DB, d: Discrepancy) { IsDiscrepancyFrom(References(db), db, d) }

  function Rebuilt(db: DB): DB { RebuiltFrom(References(db), db) }

  function Wrong(db: DB): set<Hash> { WrongFrom(References(db), db.blobs) }

  // ---- The loops ----

  ghost predicate Tallies(computed: map<Hash, nat>, refs: multiset<Hash>) {
    && (forall h :: h in computed <==> h in refs)
    && (forall h :: h in computed ==> computed[h] == refs[h])
  }

  method ComputeRefs(db: BoltDB) returns (computed: map<Hash, nat>)
    ensures Tallies(computed, References(db.View()))
  {
    hide SortedKeys, AllRefs, Tallies;
    var cursor := SortedKeys(db.envelopes.Keys);
    computed := map[];
    StartTally(db.envelopes, cursor);
    for i := 0 to |cursor|
      invariant Tallies(computed, AllRefs(db.envelopes, cursor[..i]))
    {
      assert cursor[i] in cursor;
      AllRefsOneMore(db.envelopes, cursor, i);
      var refs := db.envelopes[cursor[i]].blobRefs;
      computed := AddRefs(computed, refs, AllRefs(db.envelopes, cursor[..i]));
    }
    assert cursor[..|cursor|] == cursor;
  }

  lemma StartTally(envelopes: map<Bytes, Envelope>, ks: seq<Bytes>)
    ensures Tallies(map[], AllRefs(envelopes, ks[..0]))
  {
  }

  lemma AllRefsOneMore(envelopes: map<Bytes, Envelope>, ks: seq<Bytes>, i: nat)
    requires i < |ks| && ks[i] in envelopes
    ensures AllRefs(envelopes, ks[..i + 1]) == AllRefs(envelopes, ks[..i]) + multiset(envelopes[ks[i]].blobRefs)
  {
    assert ks[..i + 1][..i] == ks[..i];
  }

  method AddRefs(start: map<Hash, nat>, refs: seq<Hash>, ghost before: multiset<Hash>)
    returns (computed: map<Hash, nat>)
    requires Tallies(start, before)
    ensures Tallies(computed, before + multiset(refs))
  {
    computed := start;
    assert before + multiset(refs[..0]) == before;
    for j := 0 to |refs|
      invariant Tallies(computed, before + multiset(refs[..j]))
    {
      assert refs[..j + 1] == refs[..j] + [refs[j]];
      computed := computed[refs[j] := (if refs[j] in computed then computed[refs[j]] else 0) + 1];
    }
    assert refs[..|refs|] == refs;
  }

  // What holds after the hashes in `done` have been visited.

  ghost predicate Untallied(computed: map<Hash, nat>, total: multiset<Hash>, done: set<Hash>) {
    && (forall h :: h in computed <==> h in total && h !in done)
    && (forall h :: h in computed ==> computed[h] == total[h])
  }

  ghost predicate Reports(found: seq<Discrepancy>, total: multiset<Hash>, db: DB, done: set<Hash>) {
    forall d :: d in found <==> d.hash in done && IsDiscrepancyFrom(total, db, d)
  }

  ghost predicate PartlyRebuilt(rows: Rows, before: Rows, total: multiset<Hash>, done: set<Hash>) {
    && rows.Keys == before.Keys
    && forall h :: h in before ==> rows[h] == if h in done then before[h].(refCount := total[h]) else before[h]
  }

  /** The visited part of a cursor. */
  ghost predicate Visited(q: seq<Hash>, i: nat, done: set<Hash>) {
    && NoDup(q) && i <= |q|
    && (forall j :: 0 <= j < |q| ==> (q[j] in done <==> j < i))
    && (forall h :: h in done ==> h in q)
  }

  lemma VisitedStart(q: seq<Hash>)
    requires NoDup(q)
    ensures Visited(q, 0, {})
  {
  }

  lemma VisitedOneMore(q: seq<Hash>, i: nat, done: set<Hash>)
    requires Visited(q, i, done) && i < |q|
    ensures q[i] !in done && Visited(q, i + 1, done + {q[i]})
  {
  }

  lemma VisitedAll(q: seq<Hash>, done: set<Hash>)
    requires Visited(q, |q|, done)
    ensures forall h :: h in q <==> h in done
  {
  }

  lemma TakeOne(computed: map<Hash, nat>, total: multiset<Hash>, done: set<Hash>, h: Hash)
    requires Untallied(computed, total, done) && h !in done
    ensures total[h] == if h in computed then computed[h] else 0
    ensures Untallied(computed - {h}, total, done + {h})
  {
  }

  lemma ReportOne(found: seq<Discrepancy>, total: multiset<Hash>, db: DB, done: set<Hash>, d: Discrepancy)
    requires Reports(found, total, db, done) && d.hash !in done
    requires d.computed == total[d.hash]
    requires d.stored == if d.hash in db.blobs then db.blobs[d.hash].refCount else 0
    ensures Reports(if d.stored != d.computed then found + [d] else found, total, db, done + {d.hash})
  {
  }

  /** Counts, and reports on the database as it is after the transactions `among` have landed; changes
      nothing itself. */
  method VerifyEnvelopeRefcounts(db: BoltDB, among: seq<MetaOp>) returns (found: seq<Discrepancy>)
    modifies db
    ensures db.View() == AppliedAll(old(db.View()), among)
    ensures forall d :: d in found <==> IsDiscrepancyFrom(References(old(db.View())), db.View(), d)
  {
    hide InOrder, References, Untallied, Reports, Visited, IsDiscrepancyFrom, AppliedAll;
    var computed := ComputeRefs(db);
    ghost var total := References(db.View());
    Interfere(db, among);
    ghost var late := db.View();
    StartCheck(late, total, computed);
    var rest;
    found, rest := CheckRows(db, total, computed);
    var remaining := InOrder(rest.Keys);
    InOrderMembers(rest.Keys);
    ghost var done: set<Hash> := {};
    VisitedStart(remaining);
    assert db.blobs.Keys + done == db.blobs.Keys;
    for i := 0 to |remaining|
      invariant db.View() == late
      invariant Visited(remaining, i, done) && Reports(found, total, late, late.blobs.Keys + done)
    {
      var hash := remaining[i];
      VisitedOneMore(remaining, i, done);
      RestHasNoRow(db.View(), total, rest, hash);
      ReportOne(found, total, db.View(), db.blobs.Keys + done, Discrepancy(hash, 0, rest[hash]));
      assert db.blobs.Keys + done + {hash} == db.blobs.Keys + (done + {hash});
      found := found + [Discrepancy(hash, 0, rest[hash])];
      done := done + {hash};
    }
    VisitedAll(remaining, done);
    AllReported(db.View(), total, found, rest, done);
  }

  lemma StartCheck(db: DB, total: multiset<Hash>, computed: map<Hash, nat>)
    requires Tallies(computed, total)
    ensures Untallied(computed, total, {}) && Reports([], total, db, {})
  {
  }

  lemma RestHasNoRow(db: DB, total: multiset<Hash>, rest: map<Hash, nat>, h: Hash)
    requires Untallied(rest, total, db.blobs.Keys) && h in rest
    ensures h !in db.blobs && rest[h] == total[h] && rest[h] > 0
  {
  }

  lemma AllReported(db: DB, total: multiset<Hash>, found: seq<Discrepancy>, rest: map<Hash, nat>, done: set<Hash>)
    requires Untallied(rest, total, db.blobs.Keys) && Reports(found, total, db, db.blobs.Keys + done)
    requires forall h :: h in done <==> h in rest
    ensures forall d :: d in found <==> IsDiscrepancyFrom(total, db, d)
  {
  }

  /** The loop over the rows. */
  method CheckRows(db: BoltDB, ghost total: multiset<Hash>, start: map<Hash, nat>)
    returns (found: seq<Discrepancy>, computed: map<Hash, nat>)
    requires Untallied(start, total, {}) && Reports([], total, db.View(), {})
    ensures Untallied(computed, total, db.blobs.Keys) && Reports(found, total, db.View(), db.blobs.Keys)
  {
    hide InOrder, Untallied, Reports, Visited, IsDiscrepancyFrom;
    var cursor := InOrder(db.blobs.Keys);
    InOrderMembers(db.blobs.Keys);
    found, computed := [], start;
    ghost var done: set<Hash> := {};
    VisitedStart(cursor);
    for i := 0 to |cursor|
      invariant Visited(cursor, i, done)
      invariant Untallied(computed, total, done) && Reports(found, total, db.View(), done)
    {
      var hash := cursor[i];
      VisitedOneMore(cursor, i, done);
      TakeOne(computed, total, done, hash);
      assert hash in cursor;
      var entry := db.blobs[hash];
      var expected := if hash in computed then computed[hash] else 0;
      ReportOne(found, total, db.View(), done, Discrepancy(hash, entry.refCount, expected));
      if entry.refCount != expected {
        found := found + [Discrepancy(hash, entry.refCount, expected)];
      }
      computed := computed - {hash};
      done := done + {hash};
    }
    VisitedAll(cursor, done);
    assert done == db.blobs.Keys;
  }

  /** Rewriting has come as far as the hashes in `done`; `wrong` counts the rewritten rows. */
  ghost predicate Rewriting(cursor: seq<Hash>, i: nat, done: set<Hash>, computed: map<Hash, nat>,
                            total: multiset<Hash>, rows: Rows, before: Rows, wrong: nat) {
    && Visited(cursor, i, done) && (forall h :: h in cursor <==> h in before)
    && Untallied(computed, total, done) && PartlyRebuilt(rows, before, total, done)
    && wrong == |WrongFrom(total, before) * done|
  }

  lemma StartRewriting(cursor: seq<Hash>, computed: map<Hash, nat>, total: multiset<Hash>, rows: Rows)
    requires NoDup(cursor) && (forall h :: h in cursor <==> h in rows) && Tallies(computed, total)
    ensures Rewriting(cursor, 0, {}, computed, total, rows, rows, 0)
  {
    assert WrongFrom(total, rows) * {} == {};
  }

  /** What one row adds. */
  lemma RewriteOne(cursor: seq<Hash>, i: nat, done: set<Hash>, computed: map<Hash, nat>, total: multiset<Hash>,
                   rows: Rows, before: Rows, wrong: nat)
    requires Rewriting(cursor, i, done, computed, total, rows, before, wrong) && i < |cursor|
    ensures var h := cursor[i];
            && h in rows
            && (var expected := if h in computed then computed[h] else 0;
                var next := if rows[h].refCount != expected then rows[h := rows[h].(refCount := expected)] else rows;
                Rewriting(cursor, i + 1, done + {h}, computed - {h}, total, next, before,
                          wrong + if rows[h].refCount != expected then 1 else 0))
  {
    hide Visited, Untallied, PartlyRebuilt, WrongFrom;
    var h := cursor[i];
    assert h in cursor;
    VisitedOneMore(cursor, i, done);
    TakeOne(computed, total, done, h);
    RebuildOne(rows, before, total, done, h);
    CountWrong(WrongFrom(total, before), done, h);
    WrongHas(total, before, h);
  }

  lemma RebuildOne(rows: Rows, before: Rows, total: multiset<Hash>, done: set<Hash>, h: Hash)
    requires PartlyRebuilt(rows, before, total, done) && h in before && h !in done
    ensures h in rows && rows[h] == before[h]
    ensures PartlyRebuilt(rows[h := rows[h].(refCount := total[h])], before, total, done + {h})
    ensures rows[h].refCount == total[h] ==> PartlyRebuilt(rows, before, total, done + {h})
  {
  }

  lemma CountWrong(wrong: set<Hash>, done: set<Hash>, h: Hash)
    requires h !in done
    ensures |wrong * (done + {h})| == |wrong * done| + if h in wrong then 1 else 0
  {
    assert wrong * (done + {h}) == wrong * done + (if h in wrong then {h} else {});
  }

  lemma WrongIs(total: multiset<Hash>, rows: Rows)
    ensures WrongFrom(total, rows) == set h | h in rows && rows[h].refCount != total[h]
  {
  }

  lemma WrongHas(total: multiset<Hash>, rows: Rows, h: Hash)
    requires h in rows
    ensures h in WrongFrom(total, rows) <==> rows[h].refCount != total[h]
  {
  }

  lemma EndRewriting(cursor: seq<Hash>, done: set<Hash>, computed: map<Hash, nat>, total: multiset<Hash>,
                     rows: Rows, db: DB, wrong: nat)
    requires Rewriting(cursor, |cursor|, done, computed, total, rows, db.blobs, wrong)
    ensures db.(blobs := rows) == RebuiltFrom(total, db) && wrong == |WrongFrom(total, db.blobs)|
  {
    VisitedAll(cursor, done);
    assert done == db.blobs.Keys;
    assert WrongFrom(total, db.blobs) * done == WrongFrom(total, db.blobs);
  }

  /** Counts, and after the transactions `among` have landed rewrites every row whose count differs, and returns
      how many did. */
  method RebuildEnvelopeRefcounts(db: BoltDB, among: seq<MetaOp>) returns (updated: nat)
    modifies db
    ensures var total, late := References(old(db.View())), AppliedAll(old(db.View()), among);
            && db.View() == RebuiltFrom(total, late)
            && updated == |set h | h in late.blobs && late.blobs[h].refCount != total[h]|
  {
    hide InOrder, References, Rewriting, Tallies, Ascending, NoDup, AppliedAll, RebuiltFrom, WrongFrom;
    ghost var total := References(db.View());
    var computed := ComputeRefs(db);
    Interfere(db, among);
    ghost var late := db.View();
    var cursor := InOrder(db.blobs.Keys);
    InOrderMembers(db.blobs.Keys);
    StartRewriting(cursor, computed, total, db.blobs);
    updated := 0;
    ghost var done: set<Hash> := {};
    for i := 0 to |cursor|
      invariant Rewriting(cursor, i, done, computed, total, db.blobs, late.blobs, updated)
      invariant db.View() == late.(blobs := db.blobs)
    {
      var hash := cursor[i];
      RewriteOne(cursor, i, done, computed, total, db.blobs, late.blobs, updated);
      var entry := db.blobs[hash];
      var expected := if hash in computed then computed[hash] else 0;
      if entry.refCount != expected {
        db.PutBlob(hash, entry.(refCount := expected), false);
        updated := updated + 1;
      }
      computed := computed - {hash};
      done := done + {hash};
    }
    EndRewriting(cursor, done, computed, total, db.blobs, late, updated);
    WrongIs(total, late.blobs);
  }

  // ---- What they establish ----

  /** With duplicate-free references, the computed total is the number of envelopes that name the hash. */
  lemma {:induction false} TotalIsReferrers(envelopes: map<Bytes, Envelope>, ks: seq<Bytes>, h: Hash)
    requires Increasing(ks)
    requires forall i :: 0 <= i < |ks| ==> ks[i] in envelopes && NoDup(envelopes[ks[i]].blobRefs)
    ensures AllRefs(envelopes, ks)[h] == |NamedBy(envelopes, ks, h)|
  {
    hide NoDup;
    if ks == [] {
      assert NamedBy(envelopes, ks, h) == {};
    } else {
      var n := |ks| - 1;
      LastKeyIsNew(ks);
      TotalIsReferrers(envelopes, ks[..n], h);
      NoRepeat(envelopes[ks[n]].blobRefs, h);
      NamedByOneMore(envelopes, ks, h);
    }
  }

  lemma NamedByOneMore(envelopes: map<Bytes, Envelope>, ks: seq<Bytes>, h: Hash)
    requires ks != [] && ks[|ks| - 1] !in ks[..|ks| - 1] && ks[|ks| - 1] in envelopes
    ensures var k := ks[|ks| - 1];
            |NamedBy(envelopes, ks, h)|
            == |NamedBy(envelopes, ks[..|ks| - 1], h)| + (if h in envelopes[k].blobRefs then 1 else 0)
  {
    var k := ks[|ks| - 1];
    var a, b := NamedBy(envelopes, ks[..|ks| - 1], h), NamedBy(envelopes, ks, h);
    assert ks == ks[..|ks| - 1] + [k];
    if h in envelopes[k].blobRefs {
      assert b == a + {k};
    } else {
      assert b == a;
    }
  }

  function NamedBy(envelopes: map<Bytes, Envelope>, ks: seq<Bytes>, h: Hash): set<Bytes> {
    set k | k in ks && k in envelopes && h in envelopes[k].blobRefs
  }

  lemma LastKeyIsNew(ks: seq<Bytes>)
    requires ks != [] && Increasing(ks)
    ensures ks[|ks| - 1] !in ks[..|ks| - 1] && Increasing(ks[..|ks| - 1])
  {
    forall i | 0 <= i < |ks| - 1 ensures ks[i] != ks[|ks| - 1] { LessAsymmetric(ks[i], ks[|ks| - 1]); }
  }

  lemma {:induction false} NoRepeat(q: seq<Hash>, h: Hash)
    requires NoDup(q)
    ensures multiset(q)[h] == if h in q then 1 else 0
  {
    if q != [] {
      LastIsNew(q);
      NoRepeat(q[..|q| - 1], h);
      assert q == q[..|q| - 1] + [q[|q| - 1]];
    }
  }

  /** On a valid database the computed total is the number of envelopes that name the hash. */
  lemma ReferencesAreReferrers(db: DB, h: Hash)
    requires Valid(db)
    ensures References(db)[h] == |Referrers(db.refs, h)|
  {
    hide AllRefs, SortedKeys, Coherent, IndexMatches, NoDup;
    var ks := SortedKeys(db.envelopes.Keys);
    forall i | 0 <= i < |ks| ensures ks[i] in db.envelopes && NoDup(db.envelopes[ks[i]].blobRefs) {
      assert ks[i] in ks;
    }
    TotalIsReferrers(db.envelopes, ks, h);
    assert NamedBy(db.envelopes, ks, h) == Referrers(db.refs, h);
  }

  /** A check of a valid database finds nothing if and only if every count is exact and every named hash
      has a row. */
  lemma VerifyIsExact(db: DB)
    requires Valid(db)
    ensures (forall d :: !IsDiscrepancy(db, d)) <==> Exact(db) && Backed(db)
  {
    hide References, Valid;
    forall h ensures References(db)[h] == |Referrers(db.refs, h)| { ReferencesAreReferrers(db, h); }
    if forall d :: !IsDiscrepancy(db, d) {
      forall h | h in db.blobs ensures db.blobs[h].refCount == |Referrers(db.refs, h)| {
        assert !IsDiscrepancy(db, Discrepancy(h, db.blobs[h].refCount, References(db)[h]));
      }
      forall k, h | k in db.refs && h in db.refs[k] ensures h in db.blobs {
        SomeReferrer(db.refs, k, h);
        assert !IsDiscrepancy(db, Discrepancy(h, 0, References(db)[h]));
      }
    }
    if Exact(db) && Backed(db) {
      forall d ensures !IsDiscrepancy(db, d) {
        if d.hash !in db.blobs { NoReferrers(db, d.hash); }
      }
    }
  }

  lemma NoReferrers(db: DB, h: Hash)
    requires Backed(db) && h !in db.blobs
    ensures |Referrers(db.refs, h)| == 0
  {
    assert Referrers(db.refs, h) == {};
  }

  /** After a rebuild a check can report only hashes without rows, and a second rebuild changes nothing. */
  lemma RebuildSettles(db: DB)
    ensures forall d :: IsDiscrepancy(Rebuilt(db), d) ==> d.hash !in db.blobs
    ensures Rebuilt(Rebuilt(db)) == Rebuilt(db) && Wrong(Rebuilt(db)) == {}
    ensures Valid(db) ==> Valid(Rebuilt(db)) && Exact(Rebuilt(db))
  {
    hide AllRefs, SortedKeys;
    assert References(Rebuilt(db)) == References(db);
    if Valid(db) {
      forall h | h in db.blobs ensures Rebuilt(db).blobs[h].refCount == |Referrers(db.refs, h)| {
        ReferencesAreReferrers(db, h);
      }
    }
  }

  // ---- When transactions land between counting and rewriting ----

  /** A rebuild gives exact counts if and only if every row's hash was named by as many envelopes when it counted
      as it is when it writes. */
  lemma RebuildRaceExactly(early: DB, late: DB)
    requires Valid(early)
    ensures Exact(RebuiltFrom(References(early), late))
        <==> forall h :: h in late.blobs ==> |Referrers(early.refs, h)| == |Referrers(late.refs, h)|
  {
    hide References, Referrers, Valid;
    var r := RebuiltFrom(References(early), late);
    forall h | h in late.blobs ensures r.blobs[h].refCount == |Referrers(early.refs, h)| {
      ReferencesAreReferrers(early, h);
    }
    if Exact(r) {
      forall h | h in late.blobs ensures |Referrers(early.refs, h)| == |Referrers(late.refs, h)| {
        assert h in r.blobs;
      }
    }
  }

  /** A check finds nothing if and only if the rows it reads have the counts, and are there for the references,
      of the moment it counted. */
  lemma VerifyRaceExactly(early: DB, late: DB)
    requires Valid(early)
    ensures (forall d :: !IsDiscrepancyFrom(References(early), late, d))
        <==> Exact(early.(blobs := late.blobs)) && Backed(early.(blobs := late.blobs))
  {
    hide References, Valid;
    var mixed := early.(blobs := late.blobs);
    assert Valid(mixed) by { ValidRows(early, late.blobs); }
    SameReferences(early, late.blobs);
    forall d ensures IsDiscrepancyFrom(References(early), late, d) == IsDiscrepancy(mixed, d) {}
    VerifyIsExact(mixed);
  }

  lemma ValidRows(db: DB, rows: Rows)
    requires Valid(db)
    ensures Valid(db.(blobs := rows))
  {
    hide Mirrored, Coherent, IndexMatches;
  }

  lemma SameReferences(db: DB, rows: Rows)
    ensures References(db.(blobs := rows)) == References(db)
  {
  }

  /** An envelope stored between the two steps makes the rebuild under-count its blob, so that the collector
      may take it. */
  lemma RebuildMissesStore(early: DB, k: Bytes, e: Envelope, h: Hash)
    requires Valid(early) && h in early.blobs && h in e.blobRefs && Referrers(early.refs, h) == {}
    ensures var d := RebuiltFrom(References(early), Stored(early, k, e));
            h in d.blobs && d.blobs[h].refCount == 0 && k in Referrers(d.refs, h)
  {
    hide References, Valid, Reindexed;
    ReferencesAreReferrers(early, h);
    StoredCounts(early, k, e);
    assert h in Stored(early, k, e).blobs.Keys;
  }
}
