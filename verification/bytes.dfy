/**
 Bytes, keys and the raw key order.

 A buffer is a seq<Byte>.  Words are natural numbers below 2^64: a shift is a division by
 a power of two, a mask is a remainder, and an `|` of fields that do not overlap is a sum.
 */
module Bytes {

  type Byte = bv8
  type Key = seq<Byte>

  const TWO_8: nat := 0x100
  const TWO_16: nat := 0x1_0000
  const TWO_24: nat := 0x100_0000
  const TWO_32: nat := 0x1_0000_0000
  const TWO_40: nat := 0x100_0000_0000
  const TWO_56: nat := 0x100_0000_0000_0000
  const TWO_61: nat := 0x2000_0000_0000_0000
  const TWO_64: nat := 0x1_0000_0000_0000_0000

  type Word = w: nat | w < TWO_64

  // ---------- the raw key order ----------

  /** memcmp over the first n bytes: the sign of the first difference. */
  function Memcmp(a: seq<Byte>, b: seq<Byte>, n: nat): int
    requires n <= |a| && n <= |b|
    decreases n
  {
    if n == 0 then 0
    else if a[0] < b[0] then -1
    else if a[0] > b[0] then 1
    else Memcmp(a[1..], b[1..], n - 1)
  }

  /** memcmp on the shorter length, then the lengths. */
  function MemcmpRaw(a: Key, b: Key): int
  {
    var c := Memcmp(a, b, if |a| < |b| then |a| else |b|);
    if c == 0 then (if |a| > |b| then 1 else if |b| > |a| then -1 else 0) else c
  }

  /** The dictionary order on keys, the reference for MemcmpRaw. */
  ghost predicate Less(a: Key, b: Key)
  {
    b != [] && (a == [] || a[0] < b[0] || (a[0] == b[0] && Less(a[1..], b[1..])))
  }

  lemma {:induction false} MemcmpRawIsDictionaryOrder(a: Key, b: Key)
    ensures MemcmpRaw(a, b) < 0 <==> Less(a, b)
    ensures MemcmpRaw(a, b) > 0 <==> Less(b, a)
    ensures MemcmpRaw(a, b) == 0 <==> a == b
  {
    if a != [] && b != [] && a[0] == b[0] {
      MemcmpRawIsDictionaryOrder(a[1..], b[1..]);
      assert a == [a[0]] + a[1..] && b == [b[0]] + b[1..];
    }
  }

  lemma {:induction false} LessTransitive(a: Key, b: Key, c: Key)
    requires Less(a, b) && Less(b, c)
    ensures Less(a, c)
  {
    if a != [] && a[0] == b[0] && b[0] == c[0] {
      LessTransitive(a[1..], b[1..], c[1..]);
    }
  }

  /** Exactly one of a < b, a == b, b < a. */
  lemma {:induction false} LessTrichotomy(a: Key, b: Key)
    ensures a == b ==> !Less(a, b) && !Less(b, a)
    ensures a != b ==> (Less(a, b) <==> !Less(b, a))
  {
    MemcmpRawIsDictionaryOrder(a, b);
  }

  /** One more equal byte in front. */
  lemma SamePrefix(a: Key, b: Key, n: nat)
    requires a != [] && b != [] && a[0] == b[0] && n < |a| && n < |b|
    ensures a[..n + 1] == b[..n + 1] <==> a[1..][..n] == b[1..][..n]
  {
    assert a[..n + 1] == [a[0]] + a[1..][..n] && b[..n + 1] == [b[0]] + b[1..][..n];
  }

  /** Equal beginnings begin with the same byte. */
  lemma ShareFirst(a: Key, b: Key)
    ensures forall n :: 0 < n <= |a| && n <= |b| && a[..n] == b[..n] ==> a[0] == b[0]
  {
    forall n | 0 < n <= |a| && n <= |b| && a[..n] == b[..n] ensures a[0] == b[0] {
      assert a[..n][0] == b[..n][0];
    }
  }

  lemma LessApart(a: Key, b: Key)
    requires a == [] || b == [] || a[0] != b[0]
    ensures Less(a, b) <==>
      exists n: nat :: n <= |a| && n < |b| && a[..n] == b[..n] && (n == |a| || a[n] < b[n])
  {
    ShareFirst(a, b);
    assert a[..0] == b[..0];
  }

  lemma LessRest(a: Key, b: Key)
    requires a != [] && b != [] && a[0] == b[0]
    ensures Less(a, b) <==> Less(a[1..], b[1..])
  {
  }

  /** a comes before b when, after what they share, a has ended or has the smaller byte. */
  lemma {:induction false} LessIs(a: Key, b: Key)
    ensures Less(a, b) <==>
      exists n: nat :: n <= |a| && n < |b| && a[..n] == b[..n] && (n == |a| || a[n] < b[n])
  {
    hide Less;
    if a == [] || b == [] || a[0] != b[0] {
      LessApart(a, b);
    } else {
      var x, y := a[1..], b[1..];
      LessIs(x, y);
      LessRest(a, b);
      if n: nat :| n <= |a| && n < |b| && a[..n] == b[..n] && (n == |a| || a[n] < b[n]) {
        SamePrefix(a, b, n - 1);
      }
      if n: nat :| n <= |x| && n < |y| && x[..n] == y[..n] && (n == |x| || x[n] < y[n]) {
        SamePrefix(a, b, n);
      }
    }
  }

  /** The sign of memcmp_raw, without either recursion: a key comes before every longer key that it begins. */
  lemma MemcmpRawIs(a: Key, b: Key)
    ensures MemcmpRaw(a, b) < 0 <==>
      exists n: nat :: n <= |a| && n < |b| && a[..n] == b[..n] && (n == |a| || a[n] < b[n])
    ensures MemcmpRaw(a, b) > 0 <==>
      exists n: nat :: n <= |b| && n < |a| && b[..n] == a[..n] && (n == |b| || b[n] < a[n])
    ensures MemcmpRaw(a, b) == 0 <==> a == b
  {
    hide MemcmpRaw, Less;
    MemcmpRawIsDictionaryOrder(a, b);
    LessIs(a, b);
    LessIs(b, a);
  }
}
