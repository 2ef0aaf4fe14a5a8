/** Blob rows and the changes transactions make to their counters. */
module Blobs {
  import opened ByteStrings
  import opened Buckets
  import opened Fifo

  datatype BlobEntry = BlobEntry(size: nat, cachedAt: Time, lastAccess: Time, refCount: nat, accessCount: nat)

  type Rows = map<Hash, BlobEntry>

  /** The access counter is capped at three. */
  const MAX_ACCESS: nat := 3

  function Touched(rows: Rows, h: Hash, now: Time): Rows
    requires h in rows
  {
    var e := rows[h];
    var count := if e.accessCount < MAX_ACCESS then e.accessCount + 1 else e.accessCount;
    rows[h := e.(lastAccess := now, accessCount := count)]
  }

  /** A second chance uses up one counted access. */
  function Cooled(rows: Rows, h: Hash): Rows
    requires h in rows && rows[h].accessCount > 0
  {
    rows[h := rows[h].(accessCount := rows[h].accessCount - 1)]
  }

  // ---- Reference counts, changed for a list of hashes ----

  function Monus(a: nat, b: nat): nat { if a < b then 0 else a - b }

  /** Hashes without a row are skipped. */
  function Increased(rows: Rows, hs: seq<Hash>): Rows {
    map h | h in rows :: if h in hs then rows[h].(refCount := rows[h].refCount + 1) else rows[h]
  }

  /** A count that is already zero stays zero. */
  function Decreased(rows: Rows, hs: seq<Hash>): Rows {
    map h | h in rows :: if h in hs then rows[h].(refCount := Monus(rows[h].refCount, 1)) else rows[h]
  }

  function WithCount(rows: Rows, h: Hash, n: nat): Rows
    requires h in rows
  {
    rows[h := rows[h].(refCount := n)]
  }

  lemma IncreasedOneMore(rows: Rows, hs: seq<Hash>, i: nat)
    requires i < |hs| && NoDup(hs)
    ensures var r := Increased(rows, hs[..i]);
            Increased(rows, hs[..i + 1])
            == if hs[i] in rows then WithCount(r, hs[i], r[hs[i]].refCount + 1) else r
  {
    assert hs[..i + 1] == hs[..i] + [hs[i]];
    LastIsNew(hs[..i + 1]);
  }

  lemma DecreasedOneMore(rows: Rows, hs: seq<Hash>, i: nat)
    requires i < |hs| && NoDup(hs)
    ensures var r := Decreased(rows, hs[..i]);
            Decreased(rows, hs[..i + 1])
            == if hs[i] in rows then WithCount(r, hs[i], Monus(r[hs[i]].refCount, 1)) else r
  {
    assert hs[..i + 1] == hs[..i] + [hs[i]];
    LastIsNew(hs[..i + 1]);
  }
}
