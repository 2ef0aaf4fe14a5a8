/** The key encodings of the metadata database: timestamps, compound envelope keys and expiry keys. */
module Buckets {
  import opened ByteStrings

  /** An instant in nanoseconds since 1970. */
  type Time = int

  /** The zero value of the program's time type: the first day of year 1. */
  const ZERO_TIME: Time := -62135596800 * 1_000_000_000

  const MIN_INT64: int := -TWO_TO_63

  /** Two's complement wrap-around of 64-bit signed arithmetic. */
  function Wrap64(n: int): (r: int)
    ensures -TWO_TO_63 <= r < TWO_TO_63
    ensures r == n <==> -TWO_TO_63 <= n < TWO_TO_63
  {
    (n + TWO_TO_63) % TWO_TO_64 - TWO_TO_63
  }

  /** The nanosecond count of an instant; it wraps outside 1677 to 2262. */
  function UnixNano(t: Time): int { Wrap64(t) }

  function UnixMilli(ms: int): Time { ms * 1_000_000 }

  /** Signed nanoseconds are shifted by the least 64-bit integer, in 64-bit arithmetic. */
  function EncodeTimestamp(t: Time): (b: Bytes)
    ensures |b| == 8
  {
    BigEndian(Wrap64(UnixNano(t) - MIN_INT64) % TWO_TO_64, 8)
  }

  function DecodeTimestamp(b: Bytes): Time {
    if |b| < 8 then ZERO_TIME else Wrap64(Wrap64(FromBigEndian(b[..8])) + MIN_INT64)
  }

  lemma EncodeShifts(t: Time)
    ensures 0 <= UnixNano(t) + TWO_TO_63 < TWO_TO_64
    ensures Wrap64(UnixNano(t) - MIN_INT64) % TWO_TO_64 == UnixNano(t) + TWO_TO_63
  {
    var u := UnixNano(t) + TWO_TO_63;
    assert u < TWO_TO_63 ==> Wrap64(u) == u;
    assert u >= TWO_TO_63 ==> Wrap64(u) == u - TWO_TO_64;
  }

  /** Decoding returns the instant exactly when its nanosecond count fits in 64 bits. */
  lemma DecodeEncode(t: Time)
    ensures DecodeTimestamp(EncodeTimestamp(t)) == UnixNano(t)
    ensures DecodeTimestamp(EncodeTimestamp(t)) == t <==> -TWO_TO_63 <= t < TWO_TO_63
  {
    EncodeShifts(t);
    EightBytes();
    var u := UnixNano(t) + TWO_TO_63;
    BigEndianInverse(u, 8);
    assert EncodeTimestamp(t)[..8] == EncodeTimestamp(t);
    assert u < TWO_TO_63 ==> Wrap64(u) == u;
    assert u >= TWO_TO_63 ==> Wrap64(u) == u - TWO_TO_64;
  }

  /** Every eight-byte value is the encoding of the instant it decodes to. */
  lemma EncodeDecode(b: Bytes)
    requires |b| == 8
    ensures EncodeTimestamp(DecodeTimestamp(b)) == b
  {
    EightBytes();
    assert b[..8] == b;
    var u := FromBigEndian(b);
    assert u < TWO_TO_63 ==> Wrap64(u) == u;
    assert u >= TWO_TO_63 ==> Wrap64(u) == u - TWO_TO_64;
    assert DecodeTimestamp(b) == u - TWO_TO_63;
    EncodeShifts(u - TWO_TO_63);
    FromBigEndianInverse(b);
  }

  /** The byte order of encoded timestamps is the order of their nanosecond counts, over all of them. */
  lemma TimestampOrder(s: Time, t: Time)
    ensures Less(EncodeTimestamp(s), EncodeTimestamp(t)) <==> UnixNano(s) < UnixNano(t)
    ensures EncodeTimestamp(s) == EncodeTimestamp(t) <==> UnixNano(s) == UnixNano(t)
  {
    EncodeShifts(s);
    EncodeShifts(t);
    EightBytes();
    BigEndianOrder(UnixNano(s) + TWO_TO_63, UnixNano(t) + TWO_TO_63, 8);
    DecodeEncode(s);
    DecodeEncode(t);
  }

  /** A millisecond expiry is indexed at its own time exactly while it fits in 64-bit nanoseconds. */
  lemma ExpiryNanosExact(ms: int)
    ensures UnixNano(UnixMilli(ms)) == ms * 1_000_000 <==> -9223372036854 <= ms <= 9223372036854
  {
  }

  // ---- Compound keys ----

  predicate NulFree(s: Bytes) { forall i :: 0 <= i < |s| ==> s[i] != 0 }

  /** `s`, a NUL separator, then `rest`. */
  function Sep(s: Bytes, rest: Bytes): Bytes {
    if s == [] then [0] + rest else [s[0]] + Sep(s[1..], rest)
  }

  function EnvelopeKey(protocol: Bytes, kind: Bytes, key: Bytes): Bytes {
    Sep(protocol, Sep(kind, key))
  }

  function EnvelopeExpiryKey(expiresAt: Time, protocol: Bytes, kind: Bytes, key: Bytes): Bytes {
    EncodeTimestamp(expiresAt) + EnvelopeKey(protocol, kind, key)
  }

  datatype Cut = NoNul | Cut(head: Bytes, tail: Bytes)

  /** What stands before and after the first NUL. */
  function CutAtNul(data: Bytes): Cut {
    if data == [] then NoNul
    else if data[0] == 0 then Cut([], data[1..])
    else match CutAtNul(data[1..])
      case NoNul => NoNul
      case Cut(head, tail) => Cut([data[0]] + head, tail)
  }

  datatype KeyParts = KeyParts(protocol: Bytes, kind: Bytes, key: Bytes)

  /** What parsing a compound key yields: a cut at the first two NULs, or the whole when there are
      fewer than two. */
  function ParsedKey(data: Bytes): KeyParts {
    match CutAtNul(data)
    case NoNul => KeyParts(data, [], [])
    case Cut(protocol, rest) =>
      match CutAtNul(rest)
      case NoNul => KeyParts(data, [], [])
      case Cut(kind, key) => KeyParts(protocol, kind, key)
  }

  predicate HasTwoNuls(data: Bytes) {
    CutAtNul(data).Cut? && CutAtNul(CutAtNul(data).tail).Cut?
  }

  lemma {:induction false} SepConcat(s: Bytes, rest: Bytes)
    ensures Sep(s, rest) == s + [0] + rest
  {
    if s != [] {
      SepConcat(s[1..], rest);
      assert s == [s[0]] + s[1..];
    }
  }

  lemma {:induction false} SepAppend(s: Bytes, a: Bytes, b: Bytes)
    ensures Sep(s, a) + b == Sep(s, a + b)
  {
    if s == [] {
      assert [0] + a + b == [0] + (a + b);
    } else {
      SepAppend(s[1..], a, b);
      assert [s[0]] + Sep(s[1..], a) + b == [s[0]] + (Sep(s[1..], a) + b);
    }
  }

  lemma {:induction false} SepRestoresCut(data: Bytes)
    requires CutAtNul(data).Cut?
    ensures Sep(CutAtNul(data).head, CutAtNul(data).tail) == data && NulFree(CutAtNul(data).head)
  {
    if data[0] != 0 {
      SepRestoresCut(data[1..]);
      var c := CutAtNul(data[1..]);
      assert ([data[0]] + c.head)[1..] == c.head;
    }
  }

  lemma {:induction false} CutOfSep(s: Bytes, rest: Bytes)
    ensures CutAtNul(Sep(s, rest)).Cut?
    ensures NulFree(s) ==> CutAtNul(Sep(s, rest)) == Cut(s, rest)
  {
    if s == [] {
      assert ([0] + rest)[1..] == rest;
    } else {
      CutOfSep(s[1..], rest);
      assert Sep(s, rest)[1..] == Sep(s[1..], rest);
      assert s == [s[0]] + s[1..];
    }
  }

  /** The tail after the first NUL of `s NUL rest` ends with `rest`. */
  lemma {:induction false} CutTail(s: Bytes, rest: Bytes)
    ensures CutAtNul(Sep(s, rest)).Cut?
    ensures CutAtNul(Sep(s, rest)).tail == rest || exists t :: CutAtNul(Sep(s, rest)).tail == Sep(t, rest)
  {
    CutOfSep(s, rest);
    if s == [] {
      assert ([0] + rest)[1..] == rest;
    } else {
      assert Sep(s, rest)[1..] == Sep(s[1..], rest);
      if s[0] != 0 {
        CutTail(s[1..], rest);
      }
    }
  }

  lemma KeyHasTwoNuls(protocol: Bytes, kind: Bytes, key: Bytes)
    ensures HasTwoNuls(EnvelopeKey(protocol, kind, key))
  {
    var rest := Sep(kind, key);
    CutTail(protocol, rest);
    CutOfSep(kind, key);
    var tail := CutAtNul(Sep(protocol, rest)).tail;
    if tail != rest {
      var t :| tail == Sep(t, rest);
      CutOfSep(t, rest);
    }
  }

  /** Building from parsed parts restores any key with two separators, whatever the parts contain. */
  lemma BuildParsed(data: Bytes)
    requires HasTwoNuls(data)
    ensures var p := ParsedKey(data); EnvelopeKey(p.protocol, p.kind, p.key) == data
    ensures NulFree(ParsedKey(data).protocol) && NulFree(ParsedKey(data).kind)
  {
    SepRestoresCut(data);
    SepRestoresCut(CutAtNul(data).tail);
  }

  /** Parsing inverts building exactly for NUL-free protocols and kinds; the key may hold any bytes. */
  lemma ParseBuilt(protocol: Bytes, kind: Bytes, key: Bytes)
    ensures ParsedKey(EnvelopeKey(protocol, kind, key)) == KeyParts(protocol, kind, key)
        <==> NulFree(protocol) && NulFree(kind)
  {
    KeyHasTwoNuls(protocol, kind, key);
    BuildParsed(EnvelopeKey(protocol, kind, key));
    CutOfSep(protocol, Sep(kind, key));
    CutOfSep(kind, key);
  }

  /** The bytes of a compound key, and of a forward index key: big-endian nanoseconds counted from the least
      64-bit integer, then the compound key. */
  lemma KeyBytes(protocol: Bytes, kind: Bytes, key: Bytes, t: Time)
    ensures EnvelopeKey(protocol, kind, key) == protocol + [0] + kind + [0] + key
    ensures -TWO_TO_63 <= t < TWO_TO_63 ==>
              EnvelopeExpiryKey(t, protocol, kind, key)
              == BigEndian(t + TWO_TO_63, 8) + (protocol + [0] + kind + [0] + key)
  {
    SepConcat(kind, key);
    SepConcat(protocol, Sep(kind, key));
    assert protocol + [0] + (kind + [0] + key) == protocol + [0] + kind + [0] + key;
    if -TWO_TO_63 <= t < TWO_TO_63 {
      EncodeShifts(t);
    }
  }

  /** Compound keys are injective on NUL-free protocols and kinds. */
  lemma KeysInjective(p: KeyParts, q: KeyParts)
    requires NulFree(p.protocol) && NulFree(p.kind) && NulFree(q.protocol) && NulFree(q.kind)
    requires EnvelopeKey(p.protocol, p.kind, p.key) == EnvelopeKey(q.protocol, q.kind, q.key)
    ensures p == q
  {
    ParseBuilt(p.protocol, p.kind, p.key);
    ParseBuilt(q.protocol, q.kind, q.key);
  }

  /** Without that condition two different triples can share one compound key. */
  lemma KeysCollideWithNul()
    ensures EnvelopeKey([1, 0, 2], [3], []) == EnvelopeKey([1], [2], [3, 0])
  {
    SepConcat([1, 0, 2], Sep([3], []));
    SepConcat([3], []);
    SepConcat([1], Sep([2], [3, 0]));
    SepConcat([2], [3, 0]);
  }

  /** The keys that start with the prefix of a protocol and kind are the keys of that protocol and kind. */
  lemma PrefixMeansParts(protocol: Bytes, kind: Bytes, k: Bytes)
    requires NulFree(protocol) && NulFree(kind)
    ensures EnvelopeKey(protocol, kind, []) <= k
        <==> HasTwoNuls(k) && ParsedKey(k).protocol == protocol && ParsedKey(k).kind == kind
  {
    var prefix := EnvelopeKey(protocol, kind, []);
    if prefix <= k {
      var key := k[|prefix|..];
      KeyExtends(protocol, kind, key);
      assert k == prefix + key;
      ParseBuilt(protocol, kind, key);
      KeyHasTwoNuls(protocol, kind, key);
    }
    if HasTwoNuls(k) && ParsedKey(k).protocol == protocol && ParsedKey(k).kind == kind {
      BuildParsed(k);
      KeyExtends(protocol, kind, ParsedKey(k).key);
    }
  }

  lemma KeyExtends(protocol: Bytes, kind: Bytes, key: Bytes)
    ensures EnvelopeKey(protocol, kind, []) + key == EnvelopeKey(protocol, kind, key)
  {
    SepAppend(protocol, Sep(kind, []), key);
    SepAppend(kind, [], key);
    assert [] + key == key;
  }

  // ---- The encoders and the parser as they run ----

  method CopyInto(dst: array<byte>, at: nat, src: Bytes)
    requires at + |src| <= dst.Length
    modifies dst
    ensures forall i :: 0 <= i < |src| ==> dst[at + i] == src[i]
    ensures forall i :: 0 <= i < dst.Length && !(at <= i < at + |src|) ==> dst[i] == old(dst[i])
  {
    forall i | 0 <= i < |src| { dst[at + i] := src[i]; }
  }

  method MakeEnvelopeKey(protocol: Bytes, kind: Bytes, key: Bytes) returns (result: array<byte>)
    ensures fresh(result) && result[..] == EnvelopeKey(protocol, kind, key)
  {
    result := new byte[|protocol| + 1 + |kind| + 1 + |key|];
    var offset := 0;
    CopyInto(result, offset, protocol);
    offset := offset + |protocol|;
    result[offset] := 0;
    offset := offset + 1;
    CopyInto(result, offset, kind);
    offset := offset + |kind|;
    result[offset] := 0;
    offset := offset + 1;
    CopyInto(result, offset, key);
    KeyLayout(result[..], protocol, kind, key, 0);
  }

  method MakeEnvelopeExpiryKey(expiresAt: Time, protocol: Bytes, kind: Bytes, key: Bytes)
    returns (result: array<byte>)
    ensures fresh(result) && result[..] == EnvelopeExpiryKey(expiresAt, protocol, kind, key)
  {
    var ts := EncodeTimestamp(expiresAt);
    result := new byte[8 + |protocol| + 1 + |kind| + 1 + |key|];
    CopyInto(result, 0, ts);
    var offset := 8;
    CopyInto(result, offset, protocol);
    offset := offset + |protocol|;
    result[offset] := 0;
    offset := offset + 1;
    CopyInto(result, offset, kind);
    offset := offset + |kind|;
    result[offset] := 0;
    offset := offset + 1;
    CopyInto(result, offset, key);
    KeyLayout(result[..], protocol, kind, key, 8);
    assert result[..][..8] == ts;
  }

  lemma KeyLayout(buf: Bytes, protocol: Bytes, kind: Bytes, key: Bytes, at: nat)
    requires |buf| == at + |protocol| + 1 + |kind| + 1 + |key|
    requires forall i :: 0 <= i < |protocol| ==> buf[at + i] == protocol[i]
    requires buf[at + |protocol|] == 0
    requires forall i :: 0 <= i < |kind| ==> buf[at + |protocol| + 1 + i] == kind[i]
    requires buf[at + |protocol| + 1 + |kind|] == 0
    requires forall i :: 0 <= i < |key| ==> buf[at + |protocol| + 1 + |kind| + 1 + i] == key[i]
    ensures buf == buf[..at] + EnvelopeKey(protocol, kind, key)
  {
    var m := at + |protocol|;
    var n := m + 1 + |kind|;
    assert buf[n + 1..] == key;
    assert buf[m + 1..n] == kind;
    assert buf[at..m] == protocol;
    SepAt(buf, m + 1, n);
    SepAt(buf, at, m);
    assert buf == buf[..at] + buf[at..];
  }

  lemma SepAt(buf: Bytes, from: nat, nul: nat)
    requires from <= nul < |buf| && buf[nul] == 0
    ensures buf[from..] == Sep(buf[from..nul], buf[nul + 1..])
  {
    SepConcat(buf[from..nul], buf[nul + 1..]);
  }

  method ParseEnvelopeKey(data: Bytes) returns (protocol: Bytes, kind: Bytes, key: Bytes)
    ensures KeyParts(protocol, kind, key) == ParsedKey(data)
  {
    protocol, kind, key := [], [], [];
    var separators, start := 0, 0;
    var i := 0;
    while i < |data|
      invariant start <= i <= |data| && separators <= 1
      invariant forall k :: start <= k < i ==> data[k] != 0
      invariant separators == 0 ==> start == 0
      invariant separators == 1 ==> CutAtNul(data) == Cut(protocol, data[start..])
    {
      if data[i] == 0 {
        if separators == 0 {
          protocol := data[start..i];
          FirstNulAt(data, i);
        } else {
          kind := data[start..i];
          key := data[i + 1..];
          FirstNulAt(data[start..], i - start);
          return;
        }
        separators := separators + 1;
        start := i + 1;
      }
      i := i + 1;
    }
    NoNulIn(data[start..]);
    return data, [], [];
  }

  lemma {:induction false} FirstNulAt(s: Bytes, i: nat)
    requires i < |s| && s[i] == 0 && forall k :: 0 <= k < i ==> s[k] != 0
    ensures CutAtNul(s) == Cut(s[..i], s[i + 1..])
  {
    if i > 0 {
      FirstNulAt(s[1..], i - 1);
      assert [s[0]] + s[1..][..i - 1] == s[..i];
    }
  }

  lemma {:induction false} NoNulIn(s: Bytes)
    requires NulFree(s)
    ensures CutAtNul(s).NoNul?
  {
    if s != [] { NoNulIn(s[1..]); }
  }
}
