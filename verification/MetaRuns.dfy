/** Runs of metadata transactions: what every sequence of them keeps, and how they land between two steps of
    a longer operation. */
module MetaRuns {
  import opened ByteStrings
  import opened Buckets
  import opened Blobs
  import opened Envelopes
  import opened MetaState
  import opened MetaDB

  /** Single transactions. `PutRow` stores a blob's row; `WriteBack` is a second chance that puts back a row it
      read with count zero some time before. */
  datatype MetaOp =
    | PutOp(parts: KeyParts, envelope: Envelope)
    | UpdateOp(parts: KeyParts, answer: Update)
    | DeleteOp(parts: KeyParts)
    | ReapOp(entry: ExpiryEntry)
    | PutRow(h: Hash, size: nat, now: Time)
    | DropRow(h: Hash)
    | TouchRow(h: Hash, now: Time)
    | CoolRow(h: Hash)
    | WriteBack(h: Hash, row: BlobEntry)

  function Applied(db: DB, op: MetaOp): DB {
    match op
    case PutOp(p, e) => PutEnvelopeTx(db, EnvelopeKey(p.protocol, p.kind, p.key), e)
    case UpdateOp(p, u) => UpdateTx(db, EnvelopeKey(p.protocol, p.kind, p.key), u)
    case DeleteOp(p) => Dropped(db, EnvelopeKey(p.protocol, p.kind, p.key))
    case ReapOp(x) => ReapTx(db, x)
    case PutRow(h, size, now) => db.(blobs := db.blobs[h := BlobEntry(size, now, now, 0, 0)])
    case DropRow(h) => db.(blobs := db.blobs - {h})
    case TouchRow(h, now) => if h in db.blobs then db.(blobs := Touched(db.blobs, h, now)) else db
    case CoolRow(h) =>
      if h in db.blobs && db.blobs[h].accessCount > 0 then db.(blobs := Cooled(db.blobs, h)) else db
    case WriteBack(h, e) => db.(blobs := db.blobs[h := e.(refCount := 0)])
  }

  function AppliedAll(db: DB, ops: seq<MetaOp>): DB
    decreases |ops|
  {
    if ops == [] then db else AppliedAll(Applied(db, ops[0]), ops[1..])
  }

  lemma AppliedValid(db: DB, op: MetaOp)
    requires Valid(db)
    ensures Valid(Applied(db, op))
  {
    hide EnvelopeKey, HasTwoNuls, PutEnvelopeTx, UpdateTx, Dropped, ReapTx;
    match op
    case PutOp(p, e) =>
      KeyHasTwoNuls(p.protocol, p.kind, p.key);
      PutEnvelopeValid(db, EnvelopeKey(p.protocol, p.kind, p.key), e);
    case UpdateOp(p, u) =>
      KeyHasTwoNuls(p.protocol, p.kind, p.key);
      UpdateValid(db, EnvelopeKey(p.protocol, p.kind, p.key), u);
    case DeleteOp(p) => DroppedValid(db, EnvelopeKey(p.protocol, p.kind, p.key));
    case ReapOp(x) => ReapValid(db, x);
    case PutRow(_, _, _) =>
    case DropRow(_) =>
    case TouchRow(_, _) =>
    case CoolRow(_) =>
    case WriteBack(_, _) =>
  }

  /** The envelope invariants hold after any sequence of transactions. */
  lemma {:induction false} AppliedAllValid(db: DB, ops: seq<MetaOp>)
    requires Valid(db)
    ensures Valid(AppliedAll(db, ops))
    decreases |ops|
  {
    hide Valid, Applied;
    if ops != [] {
      AppliedValid(db, ops[0]);
      AppliedAllValid(Applied(db, ops[0]), ops[1..]);
    }
  }

  /** A row with count zero may be written for a hash that no envelope names. */
  ghost predicate Disciplined(db: DB, op: MetaOp) {
    op.PutRow? || op.WriteBack? ==> Referrers(db.refs, op.h) == {}
  }

  /** It must be: written at any other moment, by a put or by a second chance that read the row before an
      envelope named it, such a row breaks exact counts. */
  lemma DisciplineIsNeeded(db: DB, op: MetaOp)
    requires Exact(db) && (op.PutRow? || op.WriteBack?)
    ensures Exact(Applied(db, op)) <==> Disciplined(db, op)
  {
    hide Exact;
    var e := if op.PutRow? then BlobEntry(op.size, op.now, op.now, 0, 0) else op.row.(refCount := 0);
    NewRowCounts(db, op.h, e);
  }

  lemma AppliedCounts(db: DB, op: MetaOp)
    ensures NotOvercounted(db) ==> NotOvercounted(Applied(db, op))
    ensures Exact(db) && Disciplined(db, op) ==> Exact(Applied(db, op))
  {
    hide EnvelopeKey, UpdateTx, Dropped, ReapTx, Referrers;
    match op
    case PutOp(p, e) => UpdateCounts(db, EnvelopeKey(p.protocol, p.kind, p.key), Replace(e)); PutIsReplace(db, op);
    case UpdateOp(p, u) => UpdateCounts(db, EnvelopeKey(p.protocol, p.kind, p.key), u);
    case DeleteOp(p) => DroppedCounts(db, EnvelopeKey(p.protocol, p.kind, p.key));
    case ReapOp(x) => ReapCounts(db, x);
    case PutRow(h, size, now) => NewRowCounts(db, h, BlobEntry(size, now, now, 0, 0));
    case DropRow(_) =>
    case TouchRow(_, _) =>
    case CoolRow(_) =>
    case WriteBack(h, e) => NewRowCounts(db, h, e.(refCount := 0));
  }

  lemma PutIsReplace(db: DB, op: MetaOp)
    requires op.PutOp?
    ensures Applied(db, op)
         == UpdateTx(db, EnvelopeKey(op.parts.protocol, op.parts.kind, op.parts.key), Replace(op.envelope))
  {
  }

  ghost predicate AllDisciplined(db: DB, ops: seq<MetaOp>)
    decreases |ops|
  {
    ops == [] || (Disciplined(db, ops[0]) && AllDisciplined(Applied(db, ops[0]), ops[1..]))
  }

  /** In every run of transactions no count ever exceeds the number of envelopes that name the hash; and
      counts stay exact as long as rows are written only for hashes that no envelope names. */
  lemma {:induction false} RunConservesCounts(db: DB, ops: seq<MetaOp>)
    ensures NotOvercounted(db) ==> NotOvercounted(AppliedAll(db, ops))
    ensures Exact(db) && AllDisciplined(db, ops) ==> Exact(AppliedAll(db, ops))
    decreases |ops|
  {
    hide Applied, NotOvercounted, Exact, Disciplined;
    if ops != [] {
      AppliedCounts(db, ops[0]);
      RunConservesCounts(Applied(db, ops[0]), ops[1..]);
    }
  }

  /** The transactions of other goroutines land. */
  method Interfere(db: BoltDB, ops: seq<MetaOp>)
    modifies db
    ensures db.View() == AppliedAll(old(db.View()), ops)
  {
    var next := AppliedAll(db.View(), ops);
    db.envelopes, db.refs, db.blobs := next.envelopes, next.refs, next.blobs;
    db.byExpiry, db.expiryByKey := next.index.byExpiry, next.index.expiryByKey;
  }
}
