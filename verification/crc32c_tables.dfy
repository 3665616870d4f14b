/** The register's bytes, and the lookup tables of the software CRC-32C. */
module Crc32cTables {
  import opened Bytes
  import opened Crc32c

  // ---------- bytes in the register ----------

  function Up8(w: Word32): Word32
  {
    w << 8
  }

  function Down8(w: Word32): Word32
  {
    w >> 8
  }

  function Low(w: Word32): Byte
  {
    (w & 0xFF) as Byte
  }

  function Double(w: Word32): Word32
  {
    w << 1
  }

  ghost predicate HighFree(w: Word32)
  {
    w & 0x8000_0000 == 0
  }

  lemma BitDouble(y: Word32)
    requires HighFree(y)
    ensures Bit(Double(y)) == y
  {
    HalfDouble(y);
    hide Double, Half, Feedback;
    XorZero(y);
  }

  lemma HalfDouble(y: Word32)
    requires HighFree(y)
    ensures Half(Double(y)) == y && Feedback(Double(y)) == 0
  {
  }

  lemma ShiftFirst(c: Word32, n: nat)
    requires n > 0
    ensures Shift(c, n) == Shift(Bit(c), n - 1)
  {
    ShiftAdd(c, 1, n - 1);
    ShiftNone(c);
    assert Shift(c, 1) == Bit(c);
  }

  ghost predicate TopFree(w: Word32)
  {
    w & 0xFF00_0000 == 0
  }

  lemma Doubles(x: Word32)
    requires TopFree(x)
    ensures var y := Double(Double(Double(Double(x)))); Up8(x) == Double(Double(Double(Double(y))))
    ensures HighFree(x) && HighFree(Double(x)) && HighFree(Double(Double(x))) && HighFree(Double(Double(Double(x))))
    ensures var y := Double(Double(Double(Double(x))));
      HighFree(y) && HighFree(Double(y)) && HighFree(Double(Double(y))) && HighFree(Double(Double(Double(y))))
  {
  }

  lemma DoubleDown(y: Word32, n: nat)
    requires HighFree(y) && n > 0
    ensures Shift(Double(y), n) == Shift(y, n - 1)
  {
    BitDouble(y);
    ShiftFirst(Double(y), n);
  }

  /** Eight shifts bring a byte position down one. */
  lemma ShiftUp(x: Word32)
    requires TopFree(x)
    ensures Shift(Up8(x), 8) == x
  {
    Doubles(x);
    hide Double, HighFree, TopFree, Up8, Bit, Shift;
    var x1 := Double(x);
    var x2 := Double(x1);
    var x3 := Double(x2);
    var x4 := Double(x3);
    var x5 := Double(x4);
    var x6 := Double(x5);
    var x7 := Double(x6);
    DoubleDown(x7, 8);
    DoubleDown(x6, 7);
    DoubleDown(x5, 6);
    DoubleDown(x4, 5);
    DoubleDown(x3, 4);
    DoubleDown(x2, 3);
    DoubleDown(x1, 2);
    DoubleDown(x, 1);
    ShiftNone(x);
  }

  lemma HighAndLow(c: Word32)
    ensures c == Xor(Up8(Down8(c)), Wide(Low(c))) && TopFree(Down8(c))
  {
  }

  /** The bytewise step by table: only the low byte is looked up. */
  lemma TableStep(c: Word32)
    ensures Shift(c, 8) == Xor(Down8(c), Shift(Wide(Low(c)), 8))
  {
    hide Xor, Bit, Shift, Up8, Down8, Low, Wide;
    HighAndLow(c);
    ShiftLinear(Up8(Down8(c)), Wide(Low(c)), 8);
    ShiftUp(Down8(c));
  }

  // ---------- the lookup tables ----------

  /** Table k: the first holds what a byte feeds back, each next one is a byte position further. */
  function Lookup(k: nat, i: Byte): Word32
  {
    if k == 0 then Shift(Wide(i), 8) else Xor(Down8(Lookup(k - 1, i)), Lookup(0, Low(Lookup(k - 1, i))))
  }

  lemma {:induction false} LookupIsShift(k: nat, i: Byte)
    ensures Lookup(k, i) == Shift(Wide(i), 8 * (k + 1))
  {
    hide Xor, Bit, Shift, Down8, Low, Wide;
    if k > 0 {
      LookupIsShift(k - 1, i);
      TableStep(Lookup(k - 1, i));
      ShiftAdd(Wide(i), 8 * k, 8);
    }
  }

  /** Byte b at byte position k. */
  function Place(b: Byte, k: nat): Word32
  {
    if k == 0 then Wide(b) else Up8(Place(b, k - 1))
  }

  lemma PlaceFits(b: Byte)
    ensures TopFree(Wide(b)) && TopFree(Up8(Wide(b))) && TopFree(Up8(Up8(Wide(b))))
  {
  }

  lemma {:induction false} PlaceDown(b: Byte, k: nat)
    requires k <= 3
    ensures Shift(Place(b, k), 8 * k) == Wide(b)
  {
    if k == 0 {
      ShiftNone(Wide(b));
    } else {
      hide Up8, TopFree, Wide, Bit, Shift;
      PlaceDown(b, k - 1);
      PlaceFits(b);
      assert k == 1 ==> Place(b, 0) == Wide(b);
      assert k == 2 ==> Place(b, 1) == Up8(Wide(b));
      assert k == 3 ==> Place(b, 2) == Up8(Up8(Wide(b)));
      ShiftUp(Place(b, k - 1));
      ShiftAdd(Place(b, k), 8, 8 * (k - 1));
    }
  }

  /** Shifting a placed byte by n byte positions, past its own. */
  lemma PlaceShift(b: Byte, k: nat, n: nat)
    requires k <= 3 && k < n
    ensures Shift(Place(b, k), 8 * n) == Lookup(n - k - 1, b)
  {
    hide Place, Bit, Shift, Wide;
    PlaceDown(b, k);
    ShiftAdd(Place(b, k), 8 * k, 8 * (n - k));
    LookupIsShift(n - k - 1, b);
  }

  function ByteAt(w: Word32, k: nat): Byte
    requires k < 4
  {
    Low(if k == 0 then w else if k == 1 then w >> 8 else if k == 2 then w >> 16 else w >> 24)
  }

  /** Four bytes at their positions. */
  function Assemble(b0: Byte, b1: Byte, b2: Byte, b3: Byte): Word32
  {
    Xor(Xor(Place(b0, 0), Place(b1, 1)), Xor(Place(b2, 2), Place(b3, 3)))
  }

  lemma WordOfBytes(w: Word32)
    ensures Assemble(ByteAt(w, 0), ByteAt(w, 1), ByteAt(w, 2), ByteAt(w, 3)) == w
  {
    var b0, b1, b2, b3 := ByteAt(w, 0), ByteAt(w, 1), ByteAt(w, 2), ByteAt(w, 3);
    PlaceAll(b0, b1, b2, b3);
    BytesRaw(w);
  }

  lemma PlaceAll(b0: Byte, b1: Byte, b2: Byte, b3: Byte)
    ensures Place(b0, 0) == Wide(b0) && Place(b1, 1) == Wide(b1) << 8
    ensures Place(b2, 2) == Wide(b2) << 16 && Place(b3, 3) == Wide(b3) << 24
  {
    UpTwice(Wide(b2));
    UpTwice(Wide(b3));
    hide Up8, Wide;
    assert Place(b2, 1) == Up8(Wide(b2)) && Place(b3, 1) == Up8(Wide(b3));
    assert Place(b2, 2) == Up8(Up8(Wide(b2))) && Place(b3, 2) == Up8(Up8(Wide(b3)));
    assert Place(b3, 3) == Up8(Up8(Up8(Wide(b3))));
    UpOnce(Wide(b1));
  }

  lemma UpOnce(w: Word32)
    ensures Up8(w) == w << 8
  {
  }

  lemma UpTwice(w: Word32)
    ensures Up8(Up8(w)) == w << 16 && Up8(Up8(Up8(w))) == w << 24
  {
  }

  lemma BytesRaw(w: Word32)
    ensures (Wide(Low(w)) ^ (Wide(Low(w >> 8)) << 8)) ^ ((Wide(Low(w >> 16)) << 16) ^ (Wide(Low(w >> 24)) << 24)) == w
  {
  }
}
