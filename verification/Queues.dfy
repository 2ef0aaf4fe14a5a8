/** The persisted queues: paired buckets that index each entry both ways, as `BoltQueues` keeps them. */
module Queues {
  import opened ByteStrings
  import opened Fifo

  datatype QueueName = Small | Main

  /** A pair of buckets: sequence number to hash, hash to sequence number, and the forward bucket's
      counter. Keys are eight-byte big-endian numbers, whose byte order is numeric (`BigEndianOrder`). */
  datatype Paired = Paired(fwd: map<nat, Hash>, rev: map<Hash, nat>, last: nat)

  const EMPTY: Paired := Paired(map[], map[], 0)

  /** The two maps are mutual inverses and no number is beyond the bucket's counter. */
  ghost predicate Inverse(b: Paired) {
    && (forall s :: s in b.fwd ==> s <= b.last && b.fwd[s] in b.rev && b.rev[b.fwd[s]] == s)
    && (forall h :: h in b.rev ==> b.rev[h] in b.fwd && b.fwd[b.rev[h]] == h)
  }

  /** The hashes numbered up to `n`, oldest first. */
  function OrderUpTo(fwd: map<nat, Hash>, n: nat): seq<Hash> {
    (if n == 0 then [] else OrderUpTo(fwd, n - 1)) + (if n in fwd then [fwd[n]] else [])
  }

  /** The FIFO sequence a pair of buckets stands for. */
  function Order(b: Paired): seq<Hash> { OrderUpTo(b.fwd, b.last) }

  lemma OrderStep(fwd: map<nat, Hash>, n: nat)
    ensures var q := if n == 0 then [] else OrderUpTo(fwd, n - 1);
            OrderUpTo(fwd, n) == if n in fwd then q + [fwd[n]] else q
  {
  }

  lemma {:induction false} OrderUpToMembers(b: Paired, n: nat)
    requires Inverse(b)
    ensures forall h :: h in OrderUpTo(b.fwd, n) <==> h in b.rev && b.rev[h] <= n
    ensures NoDup(OrderUpTo(b.fwd, n))
  {
    hide OrderUpTo;
    OrderStep(b.fwd, n);
    if n > 0 {
      OrderUpToMembers(b, n - 1);
      if n in b.fwd { assert b.fwd[n] !in OrderUpTo(b.fwd, n - 1); }
    }
  }

  /** A well-formed pair of buckets stands for a duplicate-free queue of exactly the indexed hashes. */
  lemma OrderMembers(b: Paired)
    requires Inverse(b)
    ensures NoDup(Order(b))
    ensures forall h :: h in Order(b) <==> h in b.rev
    ensures |Order(b)| == |b.fwd|
  {
    OrderUpToMembers(b, b.last);
    OrderLength(b.fwd, b.last);
    assert NumbersUpTo(b.fwd, b.last) == b.fwd.Keys;
  }

  ghost function NumbersUpTo(fwd: map<nat, Hash>, n: nat): set<nat> {
    set s | s in fwd && s <= n
  }

  lemma {:induction false} OrderLength(fwd: map<nat, Hash>, n: nat)
    ensures |OrderUpTo(fwd, n)| == |NumbersUpTo(fwd, n)|
  {
    hide OrderUpTo, NumbersUpTo;
    OrderStep(fwd, n);
    NumbersStep(fwd, n);
    if n > 0 { OrderLength(fwd, n - 1); }
  }

  lemma NumbersStep(fwd: map<nat, Hash>, n: nat)
    ensures |NumbersUpTo(fwd, n)|
         == (if n == 0 then 0 else |NumbersUpTo(fwd, n - 1)|) + (if n in fwd then 1 else 0)
  {
    var below := if n == 0 then {} else NumbersUpTo(fwd, n - 1);
    assert NumbersUpTo(fwd, n) == if n in fwd then below + {n} else below;
  }

  lemma {:induction false} OrderAgree(a: map<nat, Hash>, b: map<nat, Hash>, n: nat)
    requires forall s :: s <= n ==> (s in a <==> s in b) && (s in a ==> a[s] == b[s])
    ensures OrderUpTo(a, n) == OrderUpTo(b, n)
  {
    if n > 0 { OrderAgree(a, b, n - 1); }
  }

  lemma {:induction false} OrderDelete(b: Paired, s: nat, n: nat)
    requires Inverse(b) && s in b.fwd
    ensures OrderUpTo(b.fwd - {s}, n) == Without(OrderUpTo(b.fwd, n), b.fwd[s])
  {
    hide Inverse, OrderUpTo, Without;
    OrderStep(b.fwd, n);
    OrderStep(b.fwd - {s}, n);
    if n > 0 { OrderDelete(b, s, n - 1); } else { WithoutAbsent([], b.fwd[s]); }
    if n in b.fwd {
      OneNumber(b, n, s);
      WithoutLast(if n == 0 then [] else OrderUpTo(b.fwd, n - 1), b.fwd[n], b.fwd[s]);
    }
  }

  lemma OneNumber(b: Paired, s: nat, t: nat)
    requires Inverse(b) && s in b.fwd && t in b.fwd
    ensures b.fwd[s] == b.fwd[t] <==> s == t
  {
  }

  /** Deleting one entry from both buckets drops its hash from the queue. */
  lemma DeleteEntry(b: Paired, s: nat)
    requires Inverse(b) && s in b.fwd
    ensures var r := Paired(b.fwd - {s}, b.rev - {b.fwd[s]}, b.last);
            Inverse(r) && Order(r) == Without(Order(b), b.fwd[s])
  {
    OrderDelete(b, s, b.last);
  }

  /** Storing a new hash under the next number puts it at the newest end. */
  lemma AddEntry(b: Paired, h: Hash)
    requires Inverse(b) && h !in b.rev
    ensures var r := Paired(b.fwd[b.last + 1 := h], b.rev[h := b.last + 1], b.last + 1);
            Inverse(r) && Order(r) == Order(b) + [h]
  {
    OrderAgree(b.fwd[b.last + 1 := h], b.fwd, b.last);
  }

  lemma NumberOf(b: Paired, h: Hash)
    requires Inverse(b) && h in b.rev
    ensures b.rev[h] in b.fwd && b.fwd[b.rev[h]] == h
  {
  }

  /** Both steps of a push: a re-inserted hash loses its old number first. */
  lemma PushEntry(b: Paired, h: Hash)
    requires Inverse(b)
    ensures var fwd := if h in b.rev then b.fwd - {b.rev[h]} else b.fwd;
            var r := Paired(fwd[b.last + 1 := h], b.rev[h := b.last + 1], b.last + 1);
            Inverse(r) && Order(r) == Push(Order(b), h)
    ensures h in Order(b) <==> h in b.rev
  {
    hide Inverse, Order, NoDup, Without;
    OrderMembers(b);
    if h in b.rev {
      NumberOf(b, h);
      DeleteEntry(b, b.rev[h]);
      AddEntry(Paired(b.fwd - {b.rev[h]}, b.rev - {h}, b.last), h);
      Reinsert(b.rev, h, b.last + 1);
    } else {
      WithoutAbsent(Order(b), h);
      AddEntry(b, h);
    }
  }

  lemma Reinsert(rev: map<Hash, nat>, h: Hash, n: nat)
    ensures (rev - {h})[h := n] == rev[h := n]
  {
  }

  predicate IsLowest(k: nat, s: set<nat>) {
    k in s && forall j :: j in s ==> k <= j
  }

  /** The lowest number holds the oldest hash. */
  lemma {:induction false} OrderFirst(b: Paired, s: nat, n: nat)
    requires Inverse(b) && IsLowest(s, b.fwd.Keys) && s <= n
    ensures OrderUpTo(b.fwd, n) != [] && OrderUpTo(b.fwd, n)[0] == b.fwd[s]
  {
    hide OrderUpTo, Inverse;
    OrderStep(b.fwd, n);
    if n == s {
      if n > 0 { NoneBelow(b.fwd, s, n - 1); }
    } else {
      OrderFirst(b, s, n - 1);
    }
  }

  lemma {:induction false} NoneBelow(fwd: map<nat, Hash>, s: nat, n: nat)
    requires n < s && forall t :: t in fwd ==> s <= t
    ensures OrderUpTo(fwd, n) == []
  {
    if n > 0 { NoneBelow(fwd, s, n - 1); }
  }

  lemma {:induction false} LowestExists(s: set<nat>)
    requires s != {}
    ensures exists k :: IsLowest(k, s)
  {
    var x :| x in s;
    if s == {x} {
      assert IsLowest(x, s);
    } else {
      LowestExists(s - {x});
      var y :| IsLowest(y, s - {x});
      var k := if x < y then x else y;
      forall j | j in s ensures k <= j {
        assert j == x || j in s - {x};
      }
      assert IsLowest(k, s);
    }
  }

  // ---- Transaction bodies ----

  /** `txPushHead`: re-insertion moves the hash to the newest position. */
  method TxPushHead(b: Paired, hash: Hash) returns (r: Paired, replaced: bool)
    requires Inverse(b)
    ensures Inverse(r) && Order(r) == Push(Order(b), hash)
    ensures replaced <==> hash in Order(b)
  {
    hide Inverse, Order, Push;
    var fwd, rev := b.fwd, b.rev;
    replaced := false;
    PushEntry(b, hash);
    if hash in rev {
      replaced := true;
      fwd := fwd - {rev[hash]};
    }
    assert fwd == if hash in b.rev then b.fwd - {b.rev[hash]} else b.fwd;
    var seqKey := b.last + 1;
    fwd := fwd[seqKey := hash];
    rev := rev[hash := seqKey];
    r := Paired(fwd, rev, seqKey);
  }

  /** `txPopTail`: takes the entry with the lowest sequence number. */
  method TxPopTail(b: Paired) returns (r: Paired, popped: bool, hash: Hash)
    requires Inverse(b)
    ensures Inverse(r) && popped == (Order(b) != [])
    ensures if popped then hash == Order(b)[0] && Order(r) == Order(b)[1..] else r == b
  {
    OrderMembers(b);
    if b.fwd == map[] {
      return b, false, Hash([]);
    }
    LowestExists(b.fwd.Keys);
    var seqKey :| IsLowest(seqKey, b.fwd.Keys);
    hash := b.fwd[seqKey];
    OrderFirst(b, seqKey, b.last);
    DeleteEntry(b, seqKey);
    WithoutFirst(Order(b));
    r := Paired(b.fwd - {seqKey}, b.rev - {hash}, b.last);
    popped := true;
  }

  method TxRemove(b: Paired, hash: Hash) returns (r: Paired, removed: bool)
    requires Inverse(b)
    ensures Inverse(r) && Order(r) == Without(Order(b), hash)
    ensures removed <==> hash in Order(b)
  {
    OrderMembers(b);
    if hash !in b.rev {
      WithoutAbsent(Order(b), hash);
      return b, false;
    }
    var seqKey := b.rev[hash];
    DeleteEntry(b, seqKey);
    r := Paired(b.fwd - {seqKey}, b.rev - {hash}, b.last);
    removed := true;
  }

  /** The trim loop counts locally, because bucket statistics do not change inside a transaction. */
  method TxTrim(b: Paired, maxEntries: int) returns (r: Paired)
    requires Inverse(b)
    ensures Inverse(r) && Order(r) == Newest(Order(b), maxEntries)
  {
    hide Inverse, Order, NoDup;
    OrderMembers(b);
    var count := |b.fwd|;
    ghost var q := Order(b);
    ghost var dropped := 0;
    r := b;
    while count > maxEntries
      invariant Inverse(r) && dropped + count == |q| && 0 <= dropped <= |q|
      invariant Order(r) == q[dropped..]
      invariant dropped == 0 || count >= maxEntries
      decreases count
    {
      var b', popped, _ := TxPopTail(r);
      r := b';
      if !popped {
        break;
      }
      DropOne(q, dropped);
      dropped := dropped + 1;
      count := count - 1;
    }
  }

  lemma DropOne(q: seq<Hash>, d: nat)
    requires d < |q|
    ensures q[d..][1..] == q[d + 1..]
  {
  }

  /** The bbolt-backed queues. `fails` says that the call's transaction is rolled back with an error. */
  class BoltQueues {
    var small: Paired
    var main: Paired
    var ghosts: Paired

    ghost predicate Valid() reads this { Inverse(small) && Inverse(main) && Inverse(ghosts) }

    function Entries(queue: QueueName): seq<Hash> reads this {
      if queue == Small then Order(small) else Order(main)
    }

    function Ghosts(): seq<Hash> reads this { Order(ghosts) }

    constructor ()
      ensures Valid() && Entries(Small) == [] && Entries(Main) == [] && Ghosts() == []
    {
      small, main, ghosts := EMPTY, EMPTY, EMPTY;
    }

    method PushHead(queue: QueueName, hash: Hash, fails: bool) returns (replaced: bool)
      requires Valid()
      modifies this
      ensures Valid() && Ghosts() == old(Ghosts())
      ensures forall q :: Entries(q) == if q == queue && !fails then Push(old(Entries(q)), hash) else old(Entries(q))
      ensures !fails ==> (replaced <==> hash in old(Entries(queue)))
    {
      replaced := false;
      if !fails {
        if queue == Small {
          var b, r := TxPushHead(small, hash);
          small, replaced := b, r;
        } else {
          var b, r := TxPushHead(main, hash);
          main, replaced := b, r;
        }
      }
    }

    method PopTail(queue: QueueName, fails: bool) returns (popped: bool, hash: Hash)
      requires Valid()
      modifies this
      ensures Valid() && Ghosts() == old(Ghosts())
      ensures popped == (!fails && old(Entries(queue)) != [])
      ensures popped ==> hash == old(Entries(queue))[0]
      ensures forall q :: Entries(q) == if q == queue && popped then old(Entries(q))[1..] else old(Entries(q))
    {
      popped, hash := false, Hash([]);
      if !fails {
        if queue == Small {
          var b, p, h := TxPopTail(small);
          small, popped, hash := b, p, h;
        } else {
          var b, p, h := TxPopTail(main);
          main, popped, hash := b, p, h;
        }
      }
    }

    method Remove(queue: QueueName, hash: Hash, fails: bool) returns (removed: bool)
      requires Valid()
      modifies this
      ensures Valid() && Ghosts() == old(Ghosts())
      ensures removed == (!fails && hash in old(Entries(queue)))
      ensures forall q :: Entries(q) == if q == queue && !fails then Without(old(Entries(q)), hash) else old(Entries(q))
    {
      removed := false;
      if !fails {
        if queue == Small {
          var b, r := TxRemove(small, hash);
          small, removed := b, r;
        } else {
          var b, r := TxRemove(main, hash);
          main, removed := b, r;
        }
      }
    }

    /** Moves a hash from the ghost set to the head of main, if it is still in the ghost set. */
    method AdmitGhostHit(hash: Hash, fails: bool) returns (admitted: bool)
      requires Valid()
      modifies this
      ensures Valid() && Entries(Small) == old(Entries(Small))
      ensures admitted == (!fails && hash in old(Ghosts()))
      ensures Ghosts() == if admitted then Without(old(Ghosts()), hash) else old(Ghosts())
      ensures Entries(Main) == if admitted then Push(old(Entries(Main)), hash) else old(Entries(Main))
    {
      hide Inverse, Order, Without, Push, NoDup;
      admitted := false;
      if !fails {
        OrderMembers(ghosts);
        if hash in ghosts.rev {
          admitted := true;
          var g, _ := TxRemove(ghosts, hash);
          var b, _ := TxPushHead(main, hash);
          ghosts, main := g, b;
        }
      }
    }

    method GhostContains(hash: Hash) returns (found: bool)
      requires Valid()
      ensures found <==> hash in Ghosts()
    {
      OrderMembers(ghosts);
      found := hash in ghosts.rev;
    }

    /** The ghost set is keyed the other way round but built by the same steps as a queue. */
    method GhostAdd(hash: Hash, fails: bool)
      requires Valid()
      modifies this`ghosts
      ensures Valid() && forall q :: Entries(q) == old(Entries(q))
      ensures Ghosts() == if fails then old(Ghosts()) else Push(old(Ghosts()), hash)
    {
      if !fails {
        var g, _ := TxPushHead(ghosts, hash);
        ghosts := g;
      }
    }

    method GhostRemove(hash: Hash, fails: bool)
      requires Valid()
      modifies this`ghosts
      ensures Valid() && forall q :: Entries(q) == old(Entries(q))
      ensures Ghosts() == if fails then old(Ghosts()) else Without(old(Ghosts()), hash)
    {
      if !fails {
        var g, _ := TxRemove(ghosts, hash);
        ghosts := g;
      }
    }

    method GhostTrimToMaxSize(maxEntries: int, fails: bool)
      requires Valid()
      modifies this`ghosts
      ensures Valid() && forall q :: Entries(q) == old(Entries(q))
      ensures Ghosts() == if fails then old(Ghosts()) else Newest(old(Ghosts()), maxEntries)
    {
      if !fails {
        var g := TxTrim(ghosts, maxEntries);
        ghosts := g;
      }
    }
  }
}
