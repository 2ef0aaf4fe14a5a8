/** Byte strings, the order the database and the standard library sort them by, and big-endian integers.

    Strings of the modelled program are byte strings, so one order serves both `sort.Strings` and the
    key order of a bucket cursor.
 */
module ByteStrings {

  type byte = x: int | 0 <= x < 256
  type Bytes = seq<byte>

  /** A blob reference in canonical form; equal references name equal contents. */
  datatype Hash = Hash(text: Bytes)

  /** The lexicographic order of `bytes.Compare`. */
  predicate Less(a: Bytes, b: Bytes) {
    |b| > 0 && (|a| == 0 || a[0] < b[0] || (a[0] == b[0] && Less(a[1..], b[1..])))
  }

  lemma {:induction false} LessTransitive(a: Bytes, b: Bytes, c: Bytes)
    requires Less(a, b) && Less(b, c)
    ensures Less(a, c)
  {
    if |a| > 0 && a[0] == b[0] && b[0] == c[0] {
      LessTransitive(a[1..], b[1..], c[1..]);
    }
  }

  lemma {:induction false} LessAsymmetric(a: Bytes, b: Bytes)
    requires Less(a, b)
    ensures !Less(b, a) && a != b
  {
    if |a| > 0 && a[0] == b[0] {
      LessAsymmetric(a[1..], b[1..]);
    }
  }

  lemma {:induction false} LessTotal(a: Bytes, b: Bytes)
    ensures a == b || Less(a, b) || Less(b, a)
  {
    if |a| > 0 && |b| > 0 && a[0] == b[0] {
      LessTotal(a[1..], b[1..]);
      assert a == [a[0]] + a[1..] && b == [b[0]] + b[1..];
    }
  }

  /** Comparing strings compares their prefixes first. */
  lemma {:induction false} LessPrefix(a: Bytes, b: Bytes, n: nat)
    requires n <= |a| && n <= |b| && Less(a[..n], b[..n])
    ensures Less(a, b)
  {
    if n > 0 && a[0] == b[0] {
      assert a[..n][1..] == a[1..][..n - 1] && b[..n][1..] == b[1..][..n - 1];
      LessPrefix(a[1..], b[1..], n - 1);
    }
  }

  lemma {:induction false} LessAppend(a: Bytes, b: Bytes, x: byte, y: byte)
    requires |a| == |b|
    ensures Less(a + [x], b + [y]) <==> Less(a, b) || (a == b && x < y)
  {
    if |a| > 0 {
      assert (a + [x])[1..] == a[1..] + [x] && (b + [y])[1..] == b[1..] + [y];
      LessAppend(a[1..], b[1..], x, y);
      assert a == [a[0]] + a[1..] && b == [b[0]] + b[1..];
    }
  }

  ghost predicate Increasing(s: seq<Bytes>) {
    forall i, j :: 0 <= i < j < |s| ==> Less(s[i], s[j])
  }

  predicate IsLeast(k: Bytes, s: set<Bytes>) {
    k in s && forall j :: j in s ==> j == k || Less(k, j)
  }

  lemma {:induction false} LeastExists(s: set<Bytes>)
    requires s != {}
    ensures exists k :: IsLeast(k, s)
  {
    var x :| x in s;
    if s == {x} {
      assert IsLeast(x, s);
    } else {
      LeastExists(s - {x});
      var y :| IsLeast(y, s - {x});
      LessTotal(x, y);
      if Less(y, x) {
        assert IsLeast(y, s);
      } else {
        forall j | j in s ensures j == x || Less(x, j) {
          if j != x && j != y { LessTransitive(x, y, j); }
        }
        assert IsLeast(x, s);
      }
    }
  }

  lemma LeastUnique(a: Bytes, b: Bytes, s: set<Bytes>)
    requires IsLeast(a, s) && IsLeast(b, s)
    ensures a == b
  {
    if a != b { LessAsymmetric(a, b); }
  }

  /** The members of a set in byte order: what a cursor over a bucket with these keys visits. */
  function SortedKeys(s: set<Bytes>): (r: seq<Bytes>)
    ensures |r| == |s|
    ensures forall k :: k in r <==> k in s
    ensures Increasing(r)
  {
    if s == {} then
      []
    else
      LeastExists(s);
      assert forall a, b | IsLeast(a, s) && IsLeast(b, s) :: a == b by {
        forall a, b | IsLeast(a, s) && IsLeast(b, s) ensures a == b { LeastUnique(a, b, s); }
      }
      var k :| IsLeast(k, s);
      [k] + SortedKeys(s - {k})
  }

  lemma HasFirst(s: seq<Bytes>)
    ensures s != [] ==> exists k :: k in s
  {
    if s != [] { assert s[0] in s; }
  }

  /** An increasing sequence is determined by its members. */
  lemma {:induction false} IncreasingUnique(a: seq<Bytes>, b: seq<Bytes>)
    requires Increasing(a) && Increasing(b)
    requires forall k :: k in a <==> k in b
    ensures a == b
  {
    HasFirst(a);
    HasFirst(b);
    if a != [] && b != [] {
      IncreasingHead(a, b);
      IncreasingHead(b, a);
      if a[0] != b[0] { LessAsymmetric(a[0], b[0]); }
      forall k | k in a[1..] ensures k in b[1..] { IncreasingTail(a, b, k); }
      forall k | k in b[1..] ensures k in a[1..] { IncreasingTail(b, a, k); }
      IncreasingUnique(a[1..], b[1..]);
      assert a == [a[0]] + a[1..] && b == [b[0]] + b[1..];
    }
  }

  lemma IncreasingHead(a: seq<Bytes>, b: seq<Bytes>)
    requires a != [] && b != [] && Increasing(b) && a[0] in b
    ensures a[0] == b[0] || Less(b[0], a[0])
  {
  }

  lemma IncreasingTail(a: seq<Bytes>, b: seq<Bytes>, k: Bytes)
    requires a != [] && b != [] && Increasing(a) && a[0] == b[0] && k in a[1..] && k in b
    ensures k in b[1..]
  {
    var i :| 1 <= i < |a| && a[i] == k;
    LessAsymmetric(a[0], a[i]);
    var j :| 0 <= j < |b| && b[j] == k;
    assert j > 0 && b[1..][j - 1] == k;
  }

  // ---- Big-endian integers ----

  const TWO_TO_64: int := 0x1_0000_0000_0000_0000
  const TWO_TO_63: int := 0x8000_0000_0000_0000

  function Pow256(n: nat): (r: nat)
    ensures r > 0
  {
    if n == 0 then 1 else 256 * Pow256(n - 1)
  }

  /** The `width` low-order bytes of `u`, most significant first. */
  function BigEndian(u: nat, width: nat): (r: Bytes)
    ensures |r| == width
  {
    if width == 0 then [] else BigEndian(u / 256, width - 1) + [u % 256]
  }

  function FromBigEndian(b: Bytes): (r: nat)
    ensures r < Pow256(|b|)
  {
    if b == [] then 0 else FromBigEndian(b[..|b| - 1]) * 256 + b[|b| - 1]
  }

  lemma {:induction false} BigEndianInverse(u: nat, width: nat)
    requires u < Pow256(width)
    ensures FromBigEndian(BigEndian(u, width)) == u
  {
    if width > 0 {
      BigEndianInverse(u / 256, width - 1);
      assert BigEndian(u, width)[..width - 1] == BigEndian(u / 256, width - 1);
    }
  }

  lemma {:induction false} FromBigEndianInverse(b: Bytes)
    ensures BigEndian(FromBigEndian(b), |b|) == b
  {
    if b != [] {
      var n := |b| - 1;
      FromBigEndianInverse(b[..n]);
      BigEndianLast(FromBigEndian(b[..n]), b[n], n);
      assert b == b[..n] + [b[n]];
    }
  }

  lemma BigEndianLast(u: nat, d: byte, width: nat)
    ensures BigEndian(u * 256 + d, width + 1) == BigEndian(u, width) + [d]
  {
    hide BigEndian;
    BigEndianStep(u * 256 + d, width);
    assert (u * 256 + d) / 256 == u && (u * 256 + d) % 256 == d;
  }

  lemma BigEndianStep(u: nat, width: nat)
    ensures BigEndian(u, width + 1) == BigEndian(u / 256, width) + [u % 256]
  {
  }

  /** Byte order on fixed-width encodings is numeric order, so the first key of a queue's bucket
      is its lowest sequence number. */
  lemma {:induction false} BigEndianOrder(u: nat, v: nat, width: nat)
    requires u < Pow256(width) && v < Pow256(width)
    ensures Less(BigEndian(u, width), BigEndian(v, width)) <==> u < v
  {
    if width > 0 {
      BigEndianOrder(u / 256, v / 256, width - 1);
      LessAppend(BigEndian(u / 256, width - 1), BigEndian(v / 256, width - 1), u % 256, v % 256);
      if u / 256 == v / 256 {
      } else if BigEndian(u / 256, width - 1) == BigEndian(v / 256, width - 1) {
        BigEndianInverse(u / 256, width - 1);
        BigEndianInverse(v / 256, width - 1);
      }
    }
  }

  lemma EightBytes()
    ensures Pow256(8) == TWO_TO_64
  {
    assert Pow256(2) == 0x1_0000;
    assert Pow256(4) == 0x1_0000_0000;
    assert Pow256(6) == 0x1_0000_0000_0000;
  }
}
