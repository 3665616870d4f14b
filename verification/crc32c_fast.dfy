/** The software and the three-way CRC-32C, and the CRC of several buffers. */
module Crc32cFast {
  import opened Bytes
  import opened Crc32c
  import opened Crc32cTables

  // ---------- slicing by four ----------

  /** Four table lookups, one for each byte of the word. */
  function SliceFour(w: Word32): Word32
  {
    Xor(Xor(Xor(Lookup(0, ByteAt(w, 3)), Lookup(1, ByteAt(w, 2))), Lookup(2, ByteAt(w, 1))), Lookup(3, ByteAt(w, 0)))
  }

  lemma SliceFourIsShift(w: Word32)
    ensures SliceFour(w) == Shift(w, 32)
  {
    hide Xor, Shift, Place, Lookup, ByteAt;
    var b0, b1, b2, b3 := ByteAt(w, 0), ByteAt(w, 1), ByteAt(w, 2), ByteAt(w, 3);
    WordOfBytes(w);
    WordShift(b0, b1, b2, b3, 4);
    PlaceShift(b0, 0, 4);
    PlaceShift(b1, 1, 4);
    PlaceShift(b2, 2, 4);
    PlaceShift(b3, 3, 4);
    var l0, l1, l2, l3 := Lookup(3, b0), Lookup(2, b1), Lookup(1, b2), Lookup(0, b3);
    XorComm(Xor(Xor(l3, l2), l1), l0);
    XorComm(Xor(l3, l2), l1);
    XorAssoc(l0, l1, Xor(l3, l2));
    XorComm(l3, l2);
  }

  lemma WordShift(b0: Byte, b1: Byte, b2: Byte, b3: Byte, n: nat)
    ensures Shift(Assemble(b0, b1, b2, b3), 8 * n)
         == Xor(Xor(Shift(Place(b0, 0), 8 * n), Shift(Place(b1, 1), 8 * n)),
                Xor(Shift(Place(b2, 2), 8 * n), Shift(Place(b3, 3), 8 * n)))
  {
    hide Xor, Shift, Place;
    ShiftLinear(Xor(Place(b0, 0), Place(b1, 1)), Xor(Place(b2, 2), Place(b3, 3)), 8 * n);
    ShiftLinear(Place(b0, 0), Place(b1, 1), 8 * n);
    ShiftLinear(Place(b2, 2), Place(b3, 3), 8 * n);
  }

  /** A byte that goes in after k others might as well be placed before them. */
  lemma PlaceIn(c: Word32, b: Byte, k: nat)
    requires k <= 3
    ensures ByteIn(Shift(c, 8 * k), b) == Shift(Xor(c, Place(b, k)), 8 * (k + 1))
  {
    hide Xor, Shift, Place, Wide;
    PlaceDown(b, k);
    ShiftLinear(c, Place(b, k), 8 * k);
    ShiftAdd(Xor(c, Place(b, k)), 8 * k, 8);
  }

  /** Four bytes go in as one word. */
  lemma FourIn(c: Word32, buf: seq<Byte>, i: nat)
    requires i + 4 <= |buf|
    ensures Run(c, buf, i, 4) == Shift(Xor(c, Assemble(buf[i], buf[i + 1], buf[i + 2], buf[i + 3])), 32)
  {
    hide Xor, Shift, Place, ByteIn;
    var p0, p1, p2, p3 := Place(buf[i], 0), Place(buf[i + 1], 1), Place(buf[i + 2], 2), Place(buf[i + 3], 3);
    ShiftNone(c);
    PlaceIn(c, buf[i], 0);
    PlaceIn(Xor(c, p0), buf[i + 1], 1);
    PlaceIn(Xor(Xor(c, p0), p1), buf[i + 2], 2);
    PlaceIn(Xor(Xor(Xor(c, p0), p1), p2), buf[i + 3], 3);
    XorAssoc(c, p0, p1);
    XorAssoc(Xor(c, Xor(p0, p1)), p2, p3);
    XorAssoc(c, Xor(p0, p1), Xor(p2, p3));
    assert Run(c, buf, i, 1) == ByteIn(c, buf[i]);
    assert Run(c, buf, i, 2) == ByteIn(Run(c, buf, i, 1), buf[i + 1]);
    assert Run(c, buf, i, 3) == ByteIn(Run(c, buf, i, 2), buf[i + 2]);
    assert Run(c, buf, i, 4) == ByteIn(Run(c, buf, i, 3), buf[i + 3]);
  }

  /** Four bytes as a little-endian and as a big-endian machine loads them. */
  function LoadLittle(b0: Byte, b1: Byte, b2: Byte, b3: Byte): Word32
  {
    Wide(b0) | (Wide(b1) << 8) | (Wide(b2) << 16) | (Wide(b3) << 24)
  }

  function LoadBig(b0: Byte, b1: Byte, b2: Byte, b3: Byte): Word32
  {
    (Wide(b0) << 24) | (Wide(b1) << 16) | (Wide(b2) << 8) | Wide(b3)
  }

  function Swap(x: Word32): Word32
  {
    (x >> 24) | ((x >> 8) & 0x0000_FF00) | ((x << 8) & 0x00FF_0000) | (x << 24)
  }

  lemma LoadLittleWord(b0: Byte, b1: Byte, b2: Byte, b3: Byte)
    ensures LoadLittle(b0, b1, b2, b3) == Assemble(b0, b1, b2, b3)
  {
    PlaceAll(b0, b1, b2, b3);
    LoadRaw(b0, b1, b2, b3);
  }

  lemma LoadRaw(b0: Byte, b1: Byte, b2: Byte, b3: Byte)
    ensures LoadLittle(b0, b1, b2, b3) == (Wide(b0) ^ (Wide(b1) << 8)) ^ ((Wide(b2) << 16) ^ (Wide(b3) << 24))
  {
  }

  /** On a big-endian machine the bytes of the swapped sum stand the other way around. */
  lemma BigBytes(b0: Byte, b1: Byte, b2: Byte, b3: Byte, c: Word32)
    ensures var big, little := Xor(LoadBig(b0, b1, b2, b3), Swap(c)), Xor(LoadLittle(b0, b1, b2, b3), c);
      && ByteAt(big, 0) == ByteAt(little, 3) && ByteAt(big, 1) == ByteAt(little, 2)
      && ByteAt(big, 2) == ByteAt(little, 1) && ByteAt(big, 3) == ByteAt(little, 0)
  {
  }

  /** The tail's step: the low byte of the sum is looked up. */
  lemma TailStep(c: Word32, b: Byte)
    ensures Xor(Down8(c), Lookup(0, Low(c) ^ b)) == ByteIn(c, b)
  {
    TailRaw(c, b);
    hide Xor, Shift, Down8, Low, Wide;
    TableStep(Xor(c, Wide(b)));
  }

  lemma TailRaw(c: Word32, b: Byte)
    ensures Down8(Xor(c, Wide(b))) == Down8(c) && Low(Xor(c, Wide(b))) == Low(c) ^ b
  {
  }

  /** The lookups for one loaded word, in the order of the machine's bytes. */
  function SliceStep(crc0: Word32, b0: Byte, b1: Byte, b2: Byte, b3: Byte, little: bool): Word32
  {
    if little then
      var crc1 := Xor(LoadLittle(b0, b1, b2, b3), crc0);
      SliceFour(crc1)
    else
      var crc1 := Xor(LoadBig(b0, b1, b2, b3), Swap(crc0));
      Xor(Xor(Xor(Lookup(0, ByteAt(crc1, 0)), Lookup(1, ByteAt(crc1, 1))), Lookup(2, ByteAt(crc1, 2))),
          Lookup(3, ByteAt(crc1, 3)))
  }

  lemma SliceStepIsRun(crc0: Word32, buf: seq<Byte>, i: nat, little: bool)
    requires i + 4 <= |buf|
    ensures SliceStep(crc0, buf[i], buf[i + 1], buf[i + 2], buf[i + 3], little) == Run(crc0, buf, i, 4)
  {
    hide Xor, Shift, Place, Lookup, ByteAt, LoadLittle, LoadBig, Swap, Run;
    var b0, b1, b2, b3 := buf[i], buf[i + 1], buf[i + 2], buf[i + 3];
    BigBytes(b0, b1, b2, b3, crc0);
    LoadLittleWord(b0, b1, b2, b3);
    XorComm(crc0, Assemble(b0, b1, b2, b3));
    SliceFourIsShift(Xor(LoadLittle(b0, b1, b2, b3), crc0));
    FourIn(crc0, buf, i);
  }

  /** Slicing by four: four bytes at a time, and then the rest one by one. */
  method CrcSw(crc: Word32, buf: seq<Byte>, little: bool) returns (r: Word32)
    ensures r == Crc(crc, buf)
  {
    hide Xor, Shift, Lookup, Down8, Low, SliceStep, ByteIn;
    var crc0 := Xor(crc, ONES);
    var cur, len := 0, |buf|;
    while len >= 4
      invariant 0 <= len && cur + len == |buf| && crc0 == Run(Xor(crc, ONES), buf, 0, cur)
    {
      SliceStepIsRun(crc0, buf, cur, little);
      RunAdd(Xor(crc, ONES), buf, 0, cur, 4);
      crc0 := SliceStep(crc0, buf[cur], buf[cur + 1], buf[cur + 2], buf[cur + 3], little);
      cur := cur + 4;
      len := len - 4;
    }
    while len != 0
      invariant 0 <= len && cur + len == |buf| && crc0 == Run(Xor(crc, ONES), buf, 0, cur)
    {
      TailStep(crc0, buf[cur]);
      crc0 := Xor(Down8(crc0), Lookup(0, Low(crc0) ^ buf[cur]));
      cur := cur + 1;
      len := len - 1;
    }
    r := Xor(crc0, ONES);
  }

  // ---------- three ways at once ----------

  const LONG: nat := 8192
  const SHORT: nat := 256

  /** The table of the zeros operator for len bytes: byte n at position k, shifted by len bytes. */
  function Zeros(len: nat, k: nat, n: Byte): Word32
  {
    Shift(Place(n, k), 8 * len)
  }

  /** Applies the zeros operator byte by byte. */
  function ShiftByTable(len: nat, crc: Word32): Word32
  {
    Xor(Xor(Xor(Zeros(len, 0, ByteAt(crc, 0)), Zeros(len, 1, ByteAt(crc, 1))), Zeros(len, 2, ByteAt(crc, 2))),
        Zeros(len, 3, ByteAt(crc, 3)))
  }

  lemma ShiftByTableIsShift(len: nat, crc: Word32)
    ensures ShiftByTable(len, crc) == Shift(crc, 8 * len)
  {
    hide Xor, Shift, Place, ByteAt;
    WordOfBytes(crc);
    WordShift(ByteAt(crc, 0), ByteAt(crc, 1), ByteAt(crc, 2), ByteAt(crc, 3), len);
    XorAssoc(Xor(Zeros(len, 0, ByteAt(crc, 0)), Zeros(len, 1, ByteAt(crc, 1))), Zeros(len, 2, ByteAt(crc, 2)),
             Zeros(len, 3, ByteAt(crc, 3)));
  }

  /** The crc32b instruction. */
  function Crc32b(crc: Word32, b: Byte): Word32
  {
    ByteIn(crc, b)
  }

  /** The crc32q instruction: the eight bytes at position i. */
  function Crc32q(crc: Word32, buf: seq<Byte>, i: nat): Word32
    requires i + 8 <= |buf|
  {
    Run(crc, buf, i, 8)
  }

  /** Three registers, over three blocks of `block` bytes that follow each other. */
  method ThreeWays(crc: Word32, buf: seq<Byte>, next: nat, block: nat)
    returns (crc0: Word32, crc1: Word32, crc2: Word32)
    requires block % 8 == 0 && block > 0 && next + 3 * block <= |buf|
    ensures crc0 == Run(crc, buf, next, block)
    ensures crc1 == Run(0, buf, next + block, block)
    ensures crc2 == Run(0, buf, next + 2 * block, block)
  {
    hide Xor, Shift, ByteIn;
    crc0, crc1, crc2 := crc, 0, 0;
    var j := 0;
    while j < block
      invariant j <= block && j % 8 == 0
      invariant crc0 == Run(crc, buf, next, j)
      invariant crc1 == Run(0, buf, next + block, j)
      invariant crc2 == Run(0, buf, next + 2 * block, j)
    {
      RunAdd(crc, buf, next, j, 8);
      RunAdd(0, buf, next + block, j, 8);
      RunAdd(0, buf, next + 2 * block, j, 8);
      crc0 := Crc32q(crc0, buf, next + j);
      crc1 := Crc32q(crc1, buf, next + block + j);
      crc2 := Crc32q(crc2, buf, next + 2 * block + j);
      j := j + 8;
    }
  }

  /** A block that started from zero is added to what came before it, shifted past the block. */
  lemma Combine(crc: Word32, buf: seq<Byte>, i: nat, block: nat)
    requires i + block <= |buf|
    ensures Xor(ShiftByTable(block, crc), Run(0, buf, i, block)) == Run(crc, buf, i, block)
  {
    hide Xor, Shift, ByteIn, ShiftByTable;
    ShiftByTableIsShift(block, crc);
    RunLinear(0, crc, buf, i, block);
    XorZero(crc);
    XorComm(Shift(crc, 8 * block), Run(0, buf, i, block));
  }

  /** The same with the bytes before the block: they reach up to i. */
  lemma CombineAt(start: Word32, crc: Word32, buf: seq<Byte>, i: nat, block: nat)
    requires i + 2 * block <= |buf| && crc == Run(start, buf, 0, i + block)
    ensures Xor(ShiftByTable(block, crc), Run(0, buf, i + block, block)) == Run(start, buf, 0, i + 2 * block)
  {
    hide Xor, Shift, ByteIn, ShiftByTable;
    Combine(crc, buf, i + block, block);
    RunAdd(start, buf, 0, i + block, block);
  }

  /** Three blocks at a time, as long as there are three. */
  method Blocks(start: Word32, crc: Word32, buf: seq<Byte>, from: nat, block: nat) returns (crc0: Word32, next: nat)
    requires block % 8 == 0 && block > 0 && from <= |buf| && crc == Run(start, buf, 0, from)
    ensures from <= next <= |buf| && crc0 == Run(start, buf, 0, next) && |buf| - next < 3 * block
  {
    hide Xor, Shift, ByteIn, ShiftByTable;
    crc0, next := crc, from;
    while |buf| - next >= block * 3
      invariant from <= next <= |buf| && crc0 == Run(start, buf, 0, next)
    {
      var crc1, crc2;
      RunAdd(start, buf, 0, next, block);
      crc0, crc1, crc2 := ThreeWays(crc0, buf, next, block);
      CombineAt(start, crc0, buf, next, block);
      crc0 := Xor(ShiftByTable(block, crc0), crc1);
      CombineAt(start, crc0, buf, next + block, block);
      crc0 := Xor(ShiftByTable(block, crc0), crc2);
      next := next + 3 * block;
    }
  }

  /** The words that are left, and then single bytes. */
  method Tail(start: Word32, crc: Word32, buf: seq<Byte>, from: nat) returns (crc0: Word32)
    requires from <= |buf| && crc == Run(start, buf, 0, from)
    ensures crc0 == Run(start, buf, 0, |buf|)
  {
    hide Xor, Shift, ByteIn;
    var next := from;
    crc0 := crc;
    var len := |buf| - next;
    var end := next + (len - len % 8);
    while next < end
      invariant next <= end && (end - next) % 8 == 0 && crc0 == Run(start, buf, 0, next)
    {
      RunAdd(start, buf, 0, next, 8);
      crc0 := Crc32q(crc0, buf, next);
      next := next + 8;
    }
    len := len % 8;
    while len != 0
      invariant 0 <= len && next + len == |buf| && crc0 == Run(start, buf, 0, next)
    {
      crc0 := Crc32b(crc0, buf[next]);
      next := next + 1;
      len := len - 1;
    }
  }

  /**
   The version for the crc32 instructions, for a buffer at address addr: single bytes up to an
   eight-byte boundary, long and short blocks three at a time, words, and single bytes again.
   */
  method CrcHw(crc: Word32, buf: seq<Byte>, addr: nat) returns (r: Word32)
    ensures r == Crc(crc, buf)
  {
    hide Xor, Shift, ByteIn;
    var start := Xor(crc, ONES);
    var crc0, next := start, 0;
    while next < |buf| && (addr + next) % 8 != 0
      invariant next <= |buf| && crc0 == Run(start, buf, 0, next)
    {
      crc0 := Crc32b(crc0, buf[next]);
      next := next + 1;
    }
    crc0, next := Blocks(start, crc0, buf, next, LONG);
    crc0, next := Blocks(start, crc0, buf, next, SHORT);
    crc0 := Tail(start, crc0, buf, next);
    r := Xor(crc0, ONES);
  }

  // ---------- several buffers ----------

  function Concat(bufs: seq<seq<Byte>>): seq<Byte>
  {
    if bufs == [] then [] else Concat(bufs[..|bufs| - 1]) + bufs[|bufs| - 1]
  }

  /** Buffers one after the other. */
  lemma ConcatAll(a: seq<Byte>, b: seq<Byte>, c: seq<Byte>)
    ensures Concat([]) == [] && Concat([a]) == a && Concat([a, b]) == a + b && Concat([a, b, c]) == a + b + c
  {
    assert [a][..0] == [] && [a, b][..1] == [a] && [a, b, c][..2] == [a, b];
  }

  /** The CRC of several buffers is the CRC of their concatenation. */
  method CrcIovec(bufs: seq<seq<Byte>>, little: bool) returns (crc: Word32)
    ensures crc == Crc(0, Concat(bufs))
  {
    hide Crc;
    crc := CrcSw(0, [], little);
    var n := 0;
    while n < |bufs|
      invariant n <= |bufs| && crc == Crc(0, Concat(bufs[..n]))
    {
      assert bufs[..n + 1][..n] == bufs[..n];
      if |bufs[n]| != 0 {
        CrcConcat(0, Concat(bufs[..n]), bufs[n]);
        crc := CrcSw(crc, bufs[n], little);
      } else {
        assert Concat(bufs[..n]) + bufs[n] == Concat(bufs[..n]);
      }
      n := n + 1;
    }
    assert bufs[..n] == bufs;
  }
}
