/** Duplicate-free FIFO sequences, oldest entry first: what a persisted queue stands for. */
module Fifo {
  import opened ByteStrings

  ghost predicate NoDup(q: seq<Hash>) {
    forall i, j :: 0 <= i < j < |q| ==> q[i] != q[j]
  }

  /** `q` with every occurrence of `x` dropped. */
  function Without(q: seq<Hash>, x: Hash): seq<Hash> {
    if q == [] then []
    else Without(q[..|q| - 1], x) + (if q[|q| - 1] == x then [] else [q[|q| - 1]])
  }

  /** Insertion at the head (newest end); a re-inserted entry moves there. */
  function Push(q: seq<Hash>, x: Hash): seq<Hash> {
    Without(q, x) + [x]
  }

  /** The newest `n` entries. */
  function Newest(q: seq<Hash>, n: int): seq<Hash> {
    if n <= 0 then [] else if |q| <= n then q else q[|q| - n..]
  }

  lemma {:induction false} WithoutMembers(q: seq<Hash>, x: Hash)
    ensures forall y :: y in Without(q, x) <==> y in q && y != x
  {
    if q != [] {
      WithoutMembers(q[..|q| - 1], x);
      assert q == q[..|q| - 1] + [q[|q| - 1]];
    }
  }

  lemma {:induction false} WithoutAbsent(q: seq<Hash>, x: Hash)
    requires x !in q
    ensures Without(q, x) == q
  {
    if q != [] {
      WithoutAbsent(q[..|q| - 1], x);
    }
  }

  lemma PushMembers(q: seq<Hash>, x: Hash)
    ensures forall y :: y in Push(q, x) <==> y in q || y == x
    ensures x !in q ==> Push(q, x) == q + [x]
  {
    WithoutMembers(q, x);
    if x !in q { WithoutAbsent(q, x); }
  }

  lemma {:induction false} WithoutNoDup(q: seq<Hash>, x: Hash)
    requires NoDup(q)
    ensures NoDup(Without(q, x))
    ensures |Without(q, x)| == |q| - if x in q then 1 else 0
  {
    if q != [] {
      var n := |q| - 1;
      WithoutNoDup(q[..n], x);
      WithoutMembers(q[..n], x);
      LastIsNew(q);
    }
  }

  lemma LastIsNew(q: seq<Hash>)
    requires q != [] && NoDup(q)
    ensures q[|q| - 1] !in q[..|q| - 1]
    ensures forall y :: y in q <==> y in q[..|q| - 1] || y == q[|q| - 1]
  {
    assert q == q[..|q| - 1] + [q[|q| - 1]];
  }

  lemma PushNoDup(q: seq<Hash>, x: Hash)
    requires NoDup(q)
    ensures NoDup(Push(q, x))
    ensures |Push(q, x)| == |q| + if x in q then 0 else 1
  {
    WithoutNoDup(q, x);
    WithoutMembers(q, x);
  }

  lemma WithoutLast(q: seq<Hash>, y: Hash, x: Hash)
    ensures Without(q + [y], x) == Without(q, x) + (if y == x then [] else [y])
  {
    assert (q + [y])[..|q|] == q;
  }

  /** Dropping the oldest entry of a duplicate-free queue is popping it. */
  lemma {:induction false} WithoutFirst(q: seq<Hash>)
    requires q != [] && NoDup(q)
    ensures Without(q, q[0]) == q[1..]
  {
    var n := |q| - 1;
    if n > 0 {
      WithoutFirst(q[..n]);
      assert q[..n][1..] + [q[n]] == q[1..];
    }
  }

  // ---- Sums over a queue ----

  ghost function Sum(q: seq<Hash>, w: Hash -> nat): nat {
    if q == [] then 0 else Sum(q[..|q| - 1], w) + w(q[|q| - 1])
  }

  lemma SumPush(q: seq<Hash>, x: Hash, w: Hash -> nat)
    ensures Sum(q + [x], w) == Sum(q, w) + w(x)
  {
    assert (q + [x])[..|q|] == q;
  }

  lemma {:induction false} SumConcat(a: seq<Hash>, b: seq<Hash>, w: Hash -> nat)
    ensures Sum(a + b, w) == Sum(a, w) + Sum(b, w)
  {
    if b == [] {
      assert a + b == a;
    } else {
      var n := |b| - 1;
      SumConcat(a, b[..n], w);
      assert a + b == (a + b[..n]) + [b[n]];
      SumPush(a + b[..n], b[n], w);
    }
  }

  lemma SumPop(q: seq<Hash>, w: Hash -> nat)
    requires q != []
    ensures Sum(q, w) == w(q[0]) + Sum(q[1..], w)
  {
    assert q == [q[0]] + q[1..];
    SumConcat([q[0]], q[1..], w);
    SumPush([], q[0], w);
    assert [] + [q[0]] == [q[0]];
  }

  lemma {:induction false} SumWithout(q: seq<Hash>, x: Hash, w: Hash -> nat)
    requires NoDup(q)
    ensures Sum(Without(q, x), w) == Sum(q, w) - if x in q then w(x) else 0
  {
    if q != [] {
      var n := |q| - 1;
      SumWithout(q[..n], x, w);
      LastIsNew(q);
      if q[n] != x {
        SumPush(Without(q[..n], x), q[n], w);
      } else {
        assert Without(q, x) == Without(q[..n], x);
      }
    }
  }

  /** Re-inserting an entry does not change the sum; inserting a new one adds its weight. */
  lemma SumOfPush(q: seq<Hash>, x: Hash, w: Hash -> nat)
    requires NoDup(q)
    ensures Sum(Push(q, x), w) == Sum(q, w) + (if x in q then 0 else w(x))
  {
    SumWithout(q, x, w);
    SumPush(Without(q, x), x, w);
  }

  lemma {:induction false} SumSame(q: seq<Hash>, v: Hash -> nat, w: Hash -> nat)
    requires forall x :: x in q ==> v(x) == w(x)
    ensures Sum(q, v) == Sum(q, w)
  {
    if q != [] { SumSame(q[..|q| - 1], v, w); }
  }

  /** Two duplicate-free sequences of the same hashes have the same sum. */
  lemma {:induction false} SumPermutation(a: seq<Hash>, b: seq<Hash>, w: Hash -> nat)
    requires NoDup(a) && NoDup(b) && forall h :: h in a <==> h in b
    ensures Sum(a, w) == Sum(b, w)
    decreases |a|
  {
    if a == [] {
      assert b == [] by { if b != [] { NonEmptyHas(b); } }
    } else {
      var n := |a| - 1;
      LastIsNew(a);
      WithoutMembers(b, a[n]);
      WithoutNoDup(b, a[n]);
      SumWithout(b, a[n], w);
      SumPermutation(a[..n], Without(b, a[n]), w);
    }
  }

  lemma NonEmptyHas(q: seq<Hash>)
    requires q != []
    ensures exists h :: h in q
  {
    assert q[0] in q;
  }

  lemma JoinNoDup(a: seq<Hash>, b: seq<Hash>)
    requires NoDup(a) && NoDup(b) && forall h :: h in a ==> h !in b
    ensures NoDup(a + b)
  {
    forall i, j | 0 <= i < j < |a + b| ensures (a + b)[i] != (a + b)[j] {
      if i < |a| <= j { assert a[i] in a && b[j - |a|] in b; }
    }
  }

  lemma {:induction false} SizeOfMembers(q: seq<Hash>, s: set<Hash>)
    requires NoDup(q) && forall h :: h in q <==> h in s
    ensures |q| == |s|
    decreases |q|
  {
    if q == [] {
      assert s == {};
    } else {
      LastIsNew(q);
      SizeOfMembers(q[..|q| - 1], s - {q[|q| - 1]});
    }
  }

  lemma NoDupNone()
    ensures NoDup([])
  {
  }

  /** The later entries followed by the first `i`: the queue after `i` entries were re-inserted. */
  function Rotated(q: seq<Hash>, i: nat): seq<Hash>
    requires i <= |q|
  {
    q[i..] + q[..i]
  }

  /** The queue once its first `i` entries were re-inserted and the next one was taken out. */
  function Taken(q: seq<Hash>, i: nat): seq<Hash>
    requires i < |q|
  {
    q[i + 1..] + q[..i]
  }

  lemma TakenMembers(q: seq<Hash>, i: nat)
    requires i < |q| && NoDup(q)
    ensures forall y :: y in Taken(q, i) <==> y in q && y != q[i]
    ensures |Taken(q, i)| == |q| - 1
  {
    assert q == q[..i] + [q[i]] + q[i + 1..];
  }

  lemma TakenNoDup(q: seq<Hash>, i: nat)
    requires i < |q| && NoDup(q)
    ensures NoDup(Taken(q, i))
  {
    var n := |q| - i - 1;
    var r := Taken(q, i);
    forall j, k | 0 <= j < k < |r| ensures r[j] != r[k] {
      assert r[j] == if j < n then q[i + 1 + j] else q[j - n];
      assert r[k] == if k < n then q[i + 1 + k] else q[k - n];
    }
  }

  lemma TakenSum(q: seq<Hash>, i: nat, w: Hash -> nat)
    requires i < |q|
    ensures Sum(q, w) == Sum(Taken(q, i), w) + w(q[i])
  {
    hide Sum;
    var before, from := q[..i], q[i..];
    assert from[1..] == q[i + 1..];
    SumPop(from, w);
    SumConcat(from[1..], before, w);
    SumConcat(before, from, w);
    assert q == before + from;
  }

  /** Popping a rotated queue takes out the next entry; re-inserting it rotates once more. */
  lemma RotatedPop(q: seq<Hash>, i: nat)
    requires i < |q| && NoDup(q)
    ensures Rotated(q, i) != [] && Rotated(q, i)[0] == q[i]
    ensures Rotated(q, i)[1..] == Taken(q, i)
    ensures Push(Taken(q, i), q[i]) == Rotated(q, i + 1)
  {
    TakenMembers(q, i);
    PushMembers(Taken(q, i), q[i]);
    assert q[..i + 1] == q[..i] + [q[i]];
    assert q[i + 1..] + q[..i] + [q[i]] == q[i + 1..] + (q[..i] + [q[i]]);
  }
}
