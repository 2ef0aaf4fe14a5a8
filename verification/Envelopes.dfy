/** Metadata envelopes and the set algebra on their blob references. */
module Envelopes {
  import opened ByteStrings
  import opened Fifo

  /** An envelope; the attribute map is summarised by its number of keys and total value size, and the
      fields that no modelled operation reads are one body. */
  datatype Envelope = Envelope(attributeKeys: nat, attributeBytes: nat, blobRefs: seq<Hash>,
                               expiresAtUnixMs: int, body: Bytes)

  const MAX_ATTRIBUTE_KEYS := 10
  const MAX_ATTRIBUTES_SIZE := 1024
  const SHA256: Bytes := [115, 104, 97, 50, 53, 54]
  const BLAKE3: Bytes := [98, 108, 97, 107, 101, 51]
  const COLON: byte := 58

  // ---- Lower case ----

  function LowerByte(b: byte): byte { if 65 <= b <= 90 then b + 32 else b }

  function LowerText(s: Bytes): (r: Bytes)
    ensures |r| == |s|
  {
    seq(|s|, i requires 0 <= i < |s| => LowerByte(s[i]))
  }

  function Lower(h: Hash): Hash { Hash(LowerText(h.text)) }

  /** One text is the other with the letters A to Z, and nothing else, in lower case. */
  predicate IsLowerCaseOf(h: Hash, r: Hash) {
    && |h.text| == |r.text|
    && forall i :: 0 <= i < |r.text| ==>
         h.text[i] == if 65 <= r.text[i] <= 90 then r.text[i] + 32 else r.text[i]
  }

  lemma LowerIsLowerCase(h: Hash, r: Hash)
    ensures h == Lower(r) <==> IsLowerCaseOf(h, r)
  {
    if IsLowerCaseOf(h, r) { assert h.text == LowerText(r.text); }
  }

  lemma LowerTwice(h: Hash)
    ensures Lower(Lower(h)) == Lower(h)
  {
    assert LowerText(LowerText(h.text)) == LowerText(h.text);
  }

  // ---- Validation ----

  predicate IsHex(b: byte) { 48 <= b <= 57 || 97 <= b <= 102 || 65 <= b <= 70 }

  /** An algorithm name in any case, a colon, and 64 hexadecimal digits. */
  predicate ValidDigest(h: Hash) {
    && |h.text| == 71 && h.text[6] == COLON
    && LowerText(h.text[..6]) in {SHA256, BLAKE3}
    && forall i :: 7 <= i < 71 ==> IsHex(h.text[i])
  }

  /** Written out: `sha256` or `blake3` with letters in any case, a colon, and 64 characters from 0 to 9, a to f
      and A to F. */
  lemma ValidDigestExactly(algorithm: Bytes, digits: Bytes)
    requires |algorithm| == 6
    ensures ValidDigest(Hash(algorithm + [58] + digits))
        <==> |digits| == 64
             && (forall i :: 0 <= i < 64 ==> 48 <= digits[i] <= 57 || 97 <= digits[i] <= 102 || 65 <= digits[i] <= 70)
             && (IsLowerCaseOf(Hash([115, 104, 97, 50, 53, 54]), Hash(algorithm))
                 || IsLowerCaseOf(Hash([98, 108, 97, 107, 101, 51]), Hash(algorithm)))
  {
    hide LowerText;
    var t := algorithm + [58] + digits;
    assert t[..6] == algorithm;
    LowerIsLowerCase(Hash([115, 104, 97, 50, 53, 54]), Hash(algorithm));
    LowerIsLowerCase(Hash([98, 108, 97, 107, 101, 51]), Hash(algorithm));
    forall i | 0 <= i < |digits| ensures t[7 + i] == digits[i] {}
    if |digits| == 64 {
      forall i | 7 <= i < 71 ensures t[i] == digits[i - 7] {}
    }
  }

  /** And no other form is valid. */
  lemma ValidDigestShape(h: Hash)
    requires ValidDigest(h)
    ensures |h.text| == 71 && h.text == h.text[..6] + [58] + h.text[7..]
  {
  }

  predicate ValidEnvelope(e: Envelope) {
    && e.attributeKeys <= MAX_ATTRIBUTE_KEYS && e.attributeBytes <= MAX_ATTRIBUTES_SIZE
    && forall h :: h in e.blobRefs ==> ValidDigest(h)
  }

  method ValidateEnvelope(e: Envelope) returns (ok: bool)
    ensures ok <==> ValidEnvelope(e)
    ensures ok <==> e.attributeKeys <= 10 && e.attributeBytes <= 1024 && forall h :: h in e.blobRefs ==> ValidDigest(h)
  {
    if e.attributeKeys > MAX_ATTRIBUTE_KEYS || e.attributeBytes > MAX_ATTRIBUTES_SIZE {
      return false;
    }
    for i := 0 to |e.blobRefs|
      invariant forall j :: 0 <= j < i ==> ValidDigest(e.blobRefs[j])
    {
      var valid := ValidateDigestFormat(e.blobRefs[i]);
      if !valid {
        assert e.blobRefs[i] in e.blobRefs;
        return false;
      }
    }
    return true;
  }

  /** Cuts at the first colon, then checks both parts. */
  method ValidateDigestFormat(digest: Hash) returns (ok: bool)
    ensures ok <==> ValidDigest(digest)
  {
    var s := digest.text;
    var cut := 0;
    while cut < |s| && s[cut] != COLON
      invariant cut <= |s| && forall i :: 0 <= i < cut ==> s[i] != COLON
    {
      cut := cut + 1;
    }
    if ValidDigest(digest) { NoColonBefore(digest); }
    if cut == |s| {
      return false;
    }
    assert ValidDigest(digest) ==> cut == 6;
    var algo, hash := LowerText(s[..cut]), s[cut + 1..];
    if algo != SHA256 && algo != BLAKE3 {
      return false;
    }
    if |hash| != 64 {
      return false;
    }
    for i := 0 to |hash|
      invariant forall j :: 0 <= j < i ==> IsHex(hash[j])
    {
      if !IsHex(hash[i]) {
        assert s[7 + i] == hash[i];
        return false;
      }
    }
    forall i | 7 <= i < 71 ensures IsHex(s[i]) { assert s[i] == hash[i - 7]; }
    return true;
  }

  lemma NoColonBefore(h: Hash)
    requires ValidDigest(h)
    ensures forall i :: 0 <= i < 6 ==> h.text[i] != COLON
  {
    var algo := LowerText(h.text[..6]);
    forall i | 0 <= i < 6 ensures h.text[i] != COLON {
      assert algo[i] == LowerByte(h.text[i]);
      assert algo[i] != COLON;
    }
  }

  /** Canonical form keeps a reference valid. */
  lemma LowerKeepsDigest(h: Hash)
    requires ValidDigest(h)
    ensures ValidDigest(Lower(h))
  {
    var t := Lower(h).text;
    assert t[6] == LowerByte(h.text[6]);
    assert LowerText(t[..6]) == LowerText(h.text[..6]);
    forall i | 7 <= i < 71 ensures IsHex(t[i]) {
      assert t[i] == LowerByte(h.text[i]);
    }
  }

  // ---- Canonical references ----

  function Texts(s: set<Hash>): set<Bytes> { set h | h in s :: h.text }

  /** The references in byte order of their texts. */
  function InOrder(s: set<Hash>): seq<Hash> {
    var keys := SortedKeys(Texts(s));
    seq(|keys|, i requires 0 <= i < |keys| => Hash(keys[i]))
  }

  function LowerAll(refs: seq<Hash>): set<Hash> { set r | r in refs :: Lower(r) }

  function CanonicalRefs(refs: seq<Hash>): seq<Hash> { InOrder(LowerAll(refs)) }

  ghost predicate Ascending(q: seq<Hash>) {
    forall i, j :: 0 <= i < j < |q| ==> Less(q[i].text, q[j].text)
  }

  lemma InOrderMembers(s: set<Hash>)
    ensures forall h :: h in InOrder(s) <==> h in s
    ensures Ascending(InOrder(s)) && NoDup(InOrder(s))
  {
    var keys := SortedKeys(Texts(s));
    var q := InOrder(s);
    forall h | h in q ensures h in s {
      var i :| 0 <= i < |q| && q[i] == h;
      assert keys[i] in Texts(s);
    }
    forall h | h in s ensures h in q {
      assert h.text in Texts(s);
      var i :| 0 <= i < |keys| && keys[i] == h.text;
      assert q[i] == h;
    }
    forall i, j | 0 <= i < j < |q| ensures q[i] != q[j] {
      LessAsymmetric(q[i].text, q[j].text);
    }
  }

  /** Canonical references are lower-case, duplicate-free and ascending, and name exactly the given
      references. */
  lemma CanonicalMembers(refs: seq<Hash>)
    ensures forall h :: h in CanonicalRefs(refs) <==> exists r :: r in refs && h == Lower(r)
    ensures forall h, i :: h in CanonicalRefs(refs) && 0 <= i < |h.text| ==> !(65 <= h.text[i] <= 90)
    ensures Ascending(CanonicalRefs(refs)) && NoDup(CanonicalRefs(refs))
    ensures forall h :: h in CanonicalRefs(refs) ==> Lower(h) == h
  {
    InOrderMembers(LowerAll(refs));
    forall h | h in CanonicalRefs(refs) ensures Lower(h) == h {
      var r :| r in refs && h == Lower(r);
      LowerTwice(r);
    }
    forall h, i | h in CanonicalRefs(refs) && 0 <= i < |h.text| ensures !(65 <= h.text[i] <= 90) {
      var r :| r in refs && h == Lower(r);
      LowerIsLowerCase(h, r);
    }
  }

  /** Canonical form is a fixed point and does not depend on order, case or repetition. */
  lemma CanonicalIsCanonical(a: seq<Hash>, b: seq<Hash>)
    requires LowerAll(a) == LowerAll(b)
    ensures CanonicalRefs(a) == CanonicalRefs(b)
    ensures CanonicalRefs(CanonicalRefs(a)) == CanonicalRefs(a)
  {
    CanonicalMembers(a);
    var c := CanonicalRefs(a);
    forall h ensures h in LowerAll(c) <==> h in LowerAll(a) {
      if h in LowerAll(a) {
        assert h in c && Lower(h) == h;
      }
    }
    assert LowerAll(c) == LowerAll(a);
  }

  /** The deduplication loop and the final sort. */
  method CanonicalizeRefs(refs: seq<Hash>) returns (result: seq<Hash>)
    ensures result == CanonicalRefs(refs)
  {
    var seen: set<Hash> := {};
    result := [];
    for i := 0 to |refs|
      invariant seen == LowerAll(refs[..i])
      invariant forall h :: h in result <==> h in seen
      invariant NoDup(result)
    {
      var lower := Lower(refs[i]);
      LowerOneMore(refs, i);
      if lower !in seen {
        seen := seen + {lower};
        result := result + [lower];
      }
    }
    assert refs[..|refs|] == refs;
    assert (set h | h in result) == seen;
    // Sorting distinct strings leaves the ascending arrangement of the same set.
    result := InOrder(set h | h in result);
  }

  lemma LowerOneMore(refs: seq<Hash>, i: nat)
    requires i < |refs|
    ensures LowerAll(refs[..i + 1]) == LowerAll(refs[..i]) + {Lower(refs[i])}
  {
    assert refs[..i + 1] == refs[..i] + [refs[i]];
  }

  // ---- Differences ----

  /** The entries of `a` that are not in `b`, in order. */
  function Minus(a: seq<Hash>, b: seq<Hash>): seq<Hash> {
    if a == [] then []
    else Minus(a[..|a| - 1], b) + (if a[|a| - 1] in b then [] else [a[|a| - 1]])
  }

  lemma {:induction false} MinusMembers(a: seq<Hash>, b: seq<Hash>)
    ensures forall h :: h in Minus(a, b) <==> h in a && h !in b
    ensures NoDup(a) ==> NoDup(Minus(a, b))
  {
    if a != [] {
      var n := |a| - 1;
      MinusMembers(a[..n], b);
      assert a == a[..n] + [a[n]];
      if NoDup(a) { LastIsNew(a); }
    }
  }

  /** Differences keep the order. */
  lemma {:induction false} MinusAscending(a: seq<Hash>, b: seq<Hash>)
    requires Ascending(a)
    ensures Ascending(Minus(a, b))
  {
    hide Less;
    if a != [] {
      var n := |a| - 1;
      MinusAscending(a[..n], b);
      MinusMembers(a[..n], b);
      var r := Minus(a[..n], b);
      forall i | 0 <= i < |r| ensures Less(r[i].text, a[n].text) {
        assert r[i] in a[..n];
        var j :| 0 <= j < n && a[j] == r[i];
      }
    }
  }

  method DiffRefs(oldRefs: seq<Hash>, newRefs: seq<Hash>) returns (added: seq<Hash>, removed: seq<Hash>)
    ensures added == Minus(newRefs, oldRefs) && removed == Minus(oldRefs, newRefs)
  {
    var oldSet := set r | r in oldRefs;
    var newSet := set r | r in newRefs;
    added, removed := [], [];
    for i := 0 to |newRefs|
      invariant added == Minus(newRefs[..i], oldRefs)
    {
      assert newRefs[..i + 1][..i] == newRefs[..i];
      if newRefs[i] !in oldSet {
        added := added + [newRefs[i]];
      }
    }
    assert newRefs[..|newRefs|] == newRefs;
    for i := 0 to |oldRefs|
      invariant removed == Minus(oldRefs[..i], newRefs)
    {
      assert oldRefs[..i + 1][..i] == oldRefs[..i];
      if oldRefs[i] !in newSet {
        removed := removed + [oldRefs[i]];
      }
    }
    assert oldRefs[..|oldRefs|] == oldRefs;
  }
}
