/**
 CRC-32C.  The reference shifts the message through the register one bit at a time; the
 slicing-by-4 version, in both byte orders, and the three-way version are proved equal to it.
 Linearity of the register over exclusive or is what both rest on.
 */
module Crc32c {
  import opened Bytes

  type Word32 = bv32

  /** The Castagnoli polynomial, reflected. */
  const POLY: Word32 := 0x82F6_3B78
  const ONES: Word32 := 0xFFFF_FFFF

  // ---------- the reference ----------

  function Xor(a: Word32, b: Word32): Word32
  {
    a ^ b
  }

  function Half(c: Word32): Word32
  {
    c >> 1
  }

  /** What a one falling out of the register feeds back. */
  function Feedback(c: Word32): Word32
  {
    if c & 1 == 1 then POLY else 0
  }

  /** The register shifts by one bit. */
  function Bit(c: Word32): Word32
  {
    Xor(Half(c), Feedback(c))
  }

  /** The register shifts by n bits. */
  function Shift(c: Word32, n: nat): Word32
  {
    if n == 0 then c else Bit(Shift(c, n - 1))
  }

  function Wide(b: Byte): Word32
  {
    b as Word32
  }

  /** A byte goes in, its least significant bit first. */
  function ByteIn(c: Word32, b: Byte): Word32
  {
    Shift(Xor(c, Wide(b)), 8)
  }

  /** The register after n bytes of buf from position i on. */
  function Run(c: Word32, buf: seq<Byte>, i: nat, n: nat): Word32
    requires i + n <= |buf|
  {
    if n == 0 then c else ByteIn(Run(c, buf, i, n - 1), buf[i + n - 1])
  }

  /** The CRC of buf, continued from c: the register starts and ends complemented. */
  function Crc(c: Word32, buf: seq<Byte>): Word32
  {
    Xor(Run(Xor(c, ONES), buf, 0, |buf|), ONES)
  }

  // ---------- exclusive or ----------

  lemma XorAssoc(a: Word32, b: Word32, c: Word32)
    ensures Xor(Xor(a, b), c) == Xor(a, Xor(b, c))
  {
  }

  lemma XorComm(a: Word32, b: Word32)
    ensures Xor(a, b) == Xor(b, a)
  {
  }

  lemma XorZero(a: Word32)
    ensures Xor(a, 0) == a && Xor(0, a) == a && Xor(a, a) == 0
  {
  }

  /** Regrouping two sums of two. */
  lemma XorSwap(a: Word32, b: Word32, c: Word32, d: Word32)
    ensures Xor(Xor(a, b), Xor(c, d)) == Xor(Xor(a, c), Xor(b, d))
  {
    hide Xor;
    XorAssoc(a, b, Xor(c, d));
    XorAssoc(b, c, d);
    XorComm(b, c);
    XorAssoc(c, b, d);
    XorAssoc(a, c, Xor(b, d));
  }

  // ---------- the register is linear ----------

  lemma HalfLinear(a: Word32, b: Word32)
    ensures Half(Xor(a, b)) == Xor(Half(a), Half(b))
  {
  }

  lemma OddBits(a: Word32, b: Word32)
    ensures a & 1 == 1 && b & 1 == 1 ==> (a ^ b) & 1 == 0
    ensures a & 1 == 1 && b & 1 != 1 ==> (a ^ b) & 1 == 1
    ensures a & 1 != 1 && b & 1 == 1 ==> (a ^ b) & 1 == 1
    ensures a & 1 != 1 && b & 1 != 1 ==> (a ^ b) & 1 == 0
  {
  }

  /** Whether a one falls out of the register. */
  predicate Odd(c: Word32)
  {
    c & 1 == 1
  }

  lemma OddXor(a: Word32, b: Word32)
    ensures Odd(Xor(a, b)) <==> (Odd(a) != Odd(b))
  {
    OddBits(a, b);
  }

  lemma OddFeedback(c: Word32)
    ensures Feedback(c) == if Odd(c) then POLY else 0
  {
  }

  lemma FeedbackLinear(a: Word32, b: Word32)
    ensures Feedback(Xor(a, b)) == Xor(Feedback(a), Feedback(b))
  {
    hide *;
    OddXor(a, b);
    OddFeedback(a);
    OddFeedback(b);
    OddFeedback(Xor(a, b));
    XorZero(POLY);
    XorZero(0);
  }

  lemma BitLinear(a: Word32, b: Word32)
    ensures Bit(Xor(a, b)) == Xor(Bit(a), Bit(b))
  {
    hide Xor, Half, Feedback;
    HalfLinear(a, b);
    FeedbackLinear(a, b);
    XorSwap(Half(a), Half(b), Feedback(a), Feedback(b));
  }

  lemma {:induction false} ShiftLinear(a: Word32, b: Word32, n: nat)
    ensures Shift(Xor(a, b), n) == Xor(Shift(a, n), Shift(b, n))
  {
    hide Xor, Bit;
    if n > 0 {
      ShiftLinear(a, b, n - 1);
      BitLinear(Shift(a, n - 1), Shift(b, n - 1));
    }
  }

  lemma {:induction false} ShiftAdd(c: Word32, m: nat, n: nat)
    ensures Shift(Shift(c, m), n) == Shift(c, m + n)
  {
    hide Bit;
    if n > 0 {
      ShiftAdd(c, m, n - 1);
    }
  }

  /** The register after a message: what a message does to the zero register, and where the start went. */
  lemma {:induction false} RunLinear(c: Word32, d: Word32, buf: seq<Byte>, i: nat, n: nat)
    requires i + n <= |buf|
    ensures Run(Xor(c, d), buf, i, n) == Xor(Run(c, buf, i, n), Shift(d, 8 * n))
  {
    hide Xor, Bit, Wide, Shift;
    if n == 0 {
      ShiftNone(d);
    } else {
      var b := Wide(buf[i + n - 1]);
      var r, s := Run(c, buf, i, n - 1), Shift(d, 8 * (n - 1));
      RunLinear(c, d, buf, i, n - 1);
      XorAssoc(r, s, b);
      XorComm(s, b);
      XorAssoc(r, b, s);
      ShiftLinear(Xor(r, b), s, 8);
      ShiftAdd(d, 8 * (n - 1), 8);
    }
  }

  lemma ShiftNone(c: Word32)
    ensures Shift(c, 0) == c
  {
  }

  lemma {:induction false} RunAdd(c: Word32, buf: seq<Byte>, i: nat, m: nat, n: nat)
    requires i + m + n <= |buf|
    ensures Run(Run(c, buf, i, m), buf, i + m, n) == Run(c, buf, i, m + n)
  {
    hide ByteIn;
    if n > 0 {
      RunAdd(c, buf, i, m, n - 1);
    }
  }

  lemma SliceLast<T>(a: seq<T>, i: nat, n: nat)
    requires i + n <= |a| && n > 0
    ensures a[i..i + n][n - 1] == a[i + n - 1] && a[i..i + n][..n - 1] == a[i..i + (n - 1)]
  {
  }

  lemma {:induction false} RunSame(c: Word32, a: seq<Byte>, i: nat, b: seq<Byte>, j: nat, n: nat)
    requires i + n <= |a| && j + n <= |b|
    requires a[i..i + n] == b[j..j + n]
    ensures Run(c, a, i, n) == Run(c, b, j, n)
  {
    hide ByteIn;
    if n > 0 {
      SliceLast(a, i, n);
      SliceLast(b, j, n);
      RunSame(c, a, i, b, j, n - 1);
    }
  }

  /** Continuing the CRC of a with b gives the CRC of both. */
  lemma CrcConcat(c: Word32, a: seq<Byte>, b: seq<Byte>)
    ensures Crc(Crc(c, a), b) == Crc(c, a + b)
  {
    hide Xor, ByteIn;
    var start := Xor(c, ONES);
    var mid := Run(start, a, 0, |a|);
    XorAssoc(mid, ONES, ONES);
    XorZero(ONES);
    XorZero(mid);
    RunSame(start, a, 0, a + b, 0, |a|);
    RunSame(mid, b, 0, a + b, |a|, |b|);
    RunAdd(start, a + b, 0, |a|, |b|);
  }

  // ---------- start values are told apart ----------

  /** The feedback sets the highest bit, which shifting clears. */
  lemma BitNonzero(c: Word32)
    requires Bit(c) == 0
    ensures c == 0
  {
  }

  lemma {:induction false} ShiftNonzero(c: Word32, n: nat)
    requires Shift(c, n) == 0
    ensures c == 0
  {
    hide Bit;
    if n > 0 {
      BitNonzero(Shift(c, n - 1));
      ShiftNonzero(c, n - 1);
    }
  }

  lemma XorCancel(a: Word32, b: Word32, c: Word32)
    requires Xor(a, b) == Xor(a, c)
    ensures b == c
  {
    hide Xor;
    XorAssoc(a, a, b);
    XorAssoc(a, a, c);
    XorZero(a);
    XorZero(b);
    XorZero(c);
  }

  /** Two CRCs of the same data are equal only if they were started from the same value. */
  lemma CrcInjective(c: Word32, d: Word32, buf: seq<Byte>)
    requires Crc(c, buf) == Crc(d, buf)
    ensures c == d
  {
    hide Xor, ByteIn, Run, Shift;
    var x, n := Xor(c, ONES), |buf|;
    var e := Xor(c, d);
    XorComm(Run(x, buf, 0, n), ONES);
    XorComm(Run(Xor(d, ONES), buf, 0, n), ONES);
    XorCancel(ONES, Run(x, buf, 0, n), Run(Xor(d, ONES), buf, 0, n));
    XorAround(c, d);
    RunLinear(x, e, buf, 0, n);
    XorZero(Run(x, buf, 0, n));
    XorCancel(Run(x, buf, 0, n), Shift(e, 8 * n), 0);
    ShiftNonzero(e, 8 * n);
    XorZero(c);
    XorCancel(c, d, c);
  }

  lemma XorAround(c: Word32, d: Word32)
    ensures Xor(Xor(c, ONES), Xor(c, d)) == Xor(d, ONES)
  {
    hide Xor;
    XorComm(c, ONES);
    XorAssoc(ONES, c, Xor(c, d));
    XorAssoc(c, c, d);
    XorZero(c);
    XorZero(d);
    XorComm(ONES, d);
  }

  lemma ShiftInjective(c: Word32, d: Word32, n: nat)
    requires Shift(c, n) == Shift(d, n)
    ensures c == d
  {
    hide Xor, Shift;
    ShiftLinear(c, d, n);
    XorZero(Shift(c, n));
    ShiftNonzero(Xor(c, d), n);
    XorZero(c);
    XorCancel(c, d, c);
  }

  lemma WideTells(x: Byte, y: Byte)
    requires Wide(x) == Wide(y)
    ensures x == y
  {
    assert Wide(x) as Byte == x && Wide(y) as Byte == y;
  }

  lemma CrcSnoc(c: Word32, buf: seq<Byte>, b: Byte)
    ensures Crc(c, buf + [b]) == Xor(ByteIn(Run(Xor(c, ONES), buf, 0, |buf|), b), ONES)
  {
    hide Xor, ByteIn;
    assert (buf + [b])[0..0 + |buf|] == buf[0..0 + |buf|];
    RunSame(Xor(c, ONES), buf, 0, buf + [b], 0, |buf|);
  }

  /** Two CRCs of data that differ in the last byte are different. */
  lemma LastByteTells(c: Word32, buf: seq<Byte>, x: Byte, y: Byte)
    requires Crc(c, buf + [x]) == Crc(c, buf + [y])
    ensures x == y
  {
    hide Xor, Crc, Run, Wide, Shift;
    CrcSnoc(c, buf, x);
    CrcSnoc(c, buf, y);
    var r := Run(Xor(c, ONES), buf, 0, |buf|);
    XorComm(ByteIn(r, x), ONES);
    XorComm(ByteIn(r, y), ONES);
    XorCancel(ONES, ByteIn(r, x), ByteIn(r, y));
    ShiftInjective(Xor(r, Wide(x)), Xor(r, Wide(y)), 8);
    XorCancel(r, Wide(x), Wide(y));
    WideTells(x, y);
  }

  lemma CrcOfNothing(c: Word32)
    ensures Crc(c, []) == c
  {
    hide Xor;
    XorAssoc(c, ONES, ONES);
    XorZero(ONES);
    XorZero(c);
  }

  /** A changed byte, wherever it is, changes the CRC. */
  lemma ByteTells(c: Word32, p: seq<Byte>, x: Byte, y: Byte, s: seq<Byte>)
    requires Crc(c, p + [x] + s) == Crc(c, p + [y] + s)
    ensures x == y
  {
    hide Crc;
    CrcConcat(c, p + [x], s);
    CrcConcat(c, p + [y], s);
    CrcInjective(Crc(c, p + [x]), Crc(c, p + [y]), s);
    LastByteTells(c, p, x, y);
  }

  /** The same of a sequence with one element updated. */
  lemma UpdateTells(c: Word32, s: seq<Byte>, i: nat, x: Byte)
    requires i < |s| && Crc(c, s[i := x]) == Crc(c, s)
    ensures x == s[i]
  {
    hide Crc;
    assert s == s[..i] + [s[i]] + s[i + 1..];
    assert s[i := x] == s[..i] + [x] + s[i + 1..];
    ByteTells(c, s[..i], x, s[i], s[i + 1..]);
  }

  lemma NatTells(x: Word32, y: Word32)
    requires x as nat == y as nat
    ensures x == y
  {
    assert (x as nat) as Word32 == x && (y as nat) as Word32 == y;
  }
}
