/** The records of a file as bytes: what is written for each, and how fields are packed. */
module Format {
  import opened Bytes
  import opened Words
  import opened Rows
  import C = Crc32c

  const HDR_SIZE: nat := 40
  const KEY_BASE_SIZE: nat := 24
  const VAL_BASE_SIZE: nat := 16
  const SHORT_COMMIT_SIZE: nat := 8
  const LONG_COMMIT_SIZE: nat := 24

  const MAX_SHORT_KEY_LEN: nat := 65535
  const MAX_SHORT_VAL_LEN: nat := 16777215

  const UNUSED: nat := 0
  const KEY: nat := 1
  const VALUE: nat := 2
  const COMMIT: nat := 4
  const SECOND_HALF_COMMIT: nat := 8
  const FINAL: nat := 16
  const LONG: nat := 32
  const DELETED: nat := 64
  const LONG_KEY: nat := KEY + LONG
  const LONG_VALUE: nat := VALUE + LONG
  const LONG_COMMIT: nat := COMMIT + LONG
  const LONG_FINAL: nat := FINAL + LONG
  /** Defined in terms of LONG alone, so it is not a deleted type at all. */
  const LONG_DELETED: nat := LONG

  /** Lengths for which rounding up to whole words does not wrap. */
  ghost predicate Fits(s: seq<Byte>)
  {
    |s| <= TWO_61 - 8
  }

  function TypeOf(w: Word): nat
  {
    w / TWO_56
  }

  function Tag(t: nat): (w: Word)
    requires t < 256
    ensures w / TWO_56 == t
  {
    t * TWO_56
  }

  /** Data and the zeros after it, up to whole words. */
  function Padded(s: seq<Byte>): (r: seq<Byte>)
    ensures |r| == RoundUp8(|s|) && r[..|s|] == s
  {
    s + Zeros(RoundUp8(|s|) - |s|)
  }

  // ---------- keys ----------

  function KeyLen(key: Key): nat
  {
    KEY_BASE_SIZE + RoundUp8(|key|)
  }

  function KeyWord(key: Key): Word
    requires Fits(key)
  {
    if |key| <= MAX_SHORT_KEY_LEN then KEY * TWO_56 + |key| * TWO_40 + KeyLen(key) else LONG_KEY * TWO_56
  }

  function EncodeKey(key: Key): (s: seq<Byte>)
    requires Fits(key)
    ensures |s| == KeyLen(key)
  {
    var long := |key| > MAX_SHORT_KEY_LEN;
    Be64(KeyWord(key)) + Be64(if long then |key| else 0) + Be64(if long then KeyLen(key) else 0) + Padded(key)
  }

  /** The fields of a key's first word: they do not overlap. */
  lemma KeyFields(key: Key)
    requires Fits(key)
    ensures TypeOf(KeyWord(key)) == if |key| <= MAX_SHORT_KEY_LEN then KEY else LONG_KEY
    ensures |key| <= MAX_SHORT_KEY_LEN ==>
      KeyWord(key) / TWO_40 % TWO_24 % TWO_16 == |key| && KeyWord(key) % TWO_32 == KeyLen(key)
  {
    if |key| <= MAX_SHORT_KEY_LEN {
      ShortKeyFields(KEY, |key|, KeyLen(key));
    }
  }

  /** Type, 16-bit length and value offset. */
  lemma ShortKeyFields(t: nat, n: nat, k: nat)
    requires t < 256 && n < TWO_16 && k < TWO_32
    ensures var w := t * TWO_56 + n * TWO_40 + k;
      w < TWO_64 && w / TWO_56 == t && w / TWO_40 % TWO_24 % TWO_16 == n && w % TWO_32 == k
  {
    var w := t * TWO_56 + n * TWO_40 + k;
    Parts(t, n * TWO_40 + k, TWO_56);
    Parts(t * TWO_16 + n, k, TWO_40);
    assert w == (t * TWO_16 + n) * TWO_40 + k;
    Parts(t, n, TWO_16);
    Inner(t * TWO_16 + n);
    Parts(t * TWO_24 + n * TWO_8, k, TWO_32);
    assert w == (t * TWO_24 + n * TWO_8) * TWO_32 + k;
  }

  /** The length is cut to 24 bits first, and then to 16. */
  lemma Inner(v: nat)
    requires v < TWO_24
    ensures v % TWO_24 % TWO_16 == v % TWO_16
  {
  }

  /** Type, 24-bit length and 32 bits of something else. */
  lemma LengthFields(t: nat, n: nat, k: nat)
    requires t < 256 && n < TWO_24 && k < TWO_32
    ensures var w := t * TWO_56 + n * TWO_32 + k;
      w < TWO_64 && w / TWO_56 == t && w / TWO_32 % TWO_24 == n && w % TWO_32 == k
      && w - w % TWO_32 == t * TWO_56 + n * TWO_32
  {
    var w := t * TWO_56 + n * TWO_32 + k;
    Parts(t, n * TWO_32 + k, TWO_56);
    Parts(t * TWO_24 + n, k, TWO_32);
    assert w == (t * TWO_24 + n) * TWO_32 + k;
    Parts(t, n, TWO_24);
  }

  // ---------- values, deletions and commits ----------

  function ValLen(val: seq<Byte>): nat
  {
    VAL_BASE_SIZE + RoundUp8(|val|)
  }

  function ValWord(val: seq<Byte>): Word
  {
    if |val| <= MAX_SHORT_VAL_LEN then VALUE * TWO_56 + |val| * TWO_32 else LONG_VALUE * TWO_56
  }

  function EncodeVal(val: seq<Byte>): (s: seq<Byte>)
    requires Fits(val)
    ensures |s| == ValLen(val)
  {
    Be64(ValWord(val)) + Be64(if |val| > MAX_SHORT_VAL_LEN then |val| else 0) + Padded(val)
  }

  lemma ValFields(val: seq<Byte>)
    ensures TypeOf(ValWord(val)) == if |val| <= MAX_SHORT_VAL_LEN then VALUE else LONG_VALUE
    ensures |val| <= MAX_SHORT_VAL_LEN ==> ValWord(val) / TWO_32 % TWO_24 == |val|
  {
    if |val| <= MAX_SHORT_VAL_LEN {
      LengthFields(VALUE, |val|, 0);
    }
  }

  /** A long deleted key gets no type: the word meant for it is computed but not written. */
  function DeleteWord(key: Key): Word
  {
    if |key| <= MAX_SHORT_KEY_LEN then DELETED * TWO_56 + |key| * TWO_40 else UNUSED
  }

  function EncodeDelete(key: Key): (s: seq<Byte>)
    requires Fits(key)
    ensures |s| == KeyLen(key)
  {
    Be64(DeleteWord(key)) + Be64(if |key| > MAX_SHORT_KEY_LEN then |key| else 0) + Be64(0) + Padded(key)
  }

  lemma DeleteFields(key: Key)
    ensures TypeOf(DeleteWord(key)) == DELETED <==> |key| <= MAX_SHORT_KEY_LEN
    ensures |key| <= MAX_SHORT_KEY_LEN ==> DeleteWord(key) / TWO_40 % TWO_24 % TWO_16 == |key|
  {
    if |key| <= MAX_SHORT_KEY_LEN {
      ShortKeyFields(DELETED, |key|, 0);
    }
  }

  /** A commit's word without its CRC. */
  function CommitWord(t: nat, length: nat): Word
    requires t < 256 && length <= MAX_SHORT_VAL_LEN
  {
    t * TWO_56 + length * TWO_32
  }

  /** The CRC of the data and then of the commit's word as it stands in memory. */
  function CommitCrc(data: seq<Byte>, w: Word): (crc: nat)
    ensures crc < TWO_32
  {
    C.Crc(C.Crc(C.Crc(0, []), data), Le64(w)) as nat
  }

  function EncodeCommit(t: nat, length: nat, crc: nat): (s: seq<Byte>)
    requires t < 256 && length <= MAX_SHORT_VAL_LEN && crc < TWO_32
    ensures |s| == SHORT_COMMIT_SIZE
  {
    LengthFields(t, length, crc);
    Be64(CommitWord(t, length) + crc)
  }

  /** A long commit's CRC also takes in its length and its second type, each as in memory. */
  function LongCommitCrc(data: seq<Byte>, t: nat, length: Word): (crc: nat)
    requires t < 256
    ensures crc < TWO_32
  {
    var c := C.Crc(C.Crc(C.Crc(C.Crc(0, []), data), Le64(Tag(t))), Le64(length));
    C.Crc(c, Le64(Tag(SECOND_HALF_COMMIT))) as nat
  }

  function EncodeLongCommit(t: nat, length: Word, crc: nat): (s: seq<Byte>)
    requires t < 256 && crc < TWO_32
    ensures |s| == LONG_COMMIT_SIZE
  {
    Be64(Tag(t)) + Be64(length) + Be64(Tag(SECOND_HALF_COMMIT) + crc)
  }

  /** The commit record after data: short, or long when the data is too long for a 24-bit length. */
  function CommitFor(data: seq<Byte>, final: bool): seq<Byte>
    requires |data| < TWO_64
  {
    if |data| > MAX_SHORT_VAL_LEN then
      var t := if final then LONG_FINAL else LONG_COMMIT;
      EncodeLongCommit(t, |data|, LongCommitCrc(data, t, |data|))
    else
      var t := if final then FINAL else COMMIT;
      EncodeCommit(t, |data|, CommitCrc(data, CommitWord(t, |data|)))
  }

  // ---------- what the CRC of a commit covers ----------

  /** It is the CRC of the data and then of the commit's word. */
  lemma CommitCrcIs(data: seq<Byte>, w: Word)
    ensures CommitCrc(data, w) == C.Crc(0, data + Le64(w)) as nat
  {
    hide C.Crc, Le64;
    C.CrcOfNothing(0);
    C.CrcConcat(0, data, Le64(w));
  }

  /** It is the CRC of the data and then of three words, the last one of type 8. */
  lemma LongCommitCrcIs(data: seq<Byte>, t: nat, length: Word)
    requires t < 256
    ensures LongCommitCrc(data, t, length) == C.Crc(0, data + Le64(Tag(t)) + Le64(length) + Le64(Tag(8))) as nat
  {
    hide C.Crc, Le64, Tag;
    C.CrcOfNothing(0);
    C.CrcConcat(0, data, Le64(Tag(t)));
    C.CrcConcat(0, data + Le64(Tag(t)), Le64(length));
    C.CrcConcat(0, data + Le64(Tag(t)) + Le64(length), Le64(Tag(8)));
  }

  lemma UpdateFront(s: seq<Byte>, r: seq<Byte>, i: nat, x: Byte)
    requires i < |s|
    ensures s[i := x] + r == (s + r)[i := x] && (s + r)[i] == s[i]
  {
  }

  /** A changed byte of the data is noticed. */
  lemma CommitCrcTells(data: seq<Byte>, i: nat, x: Byte, w: Word)
    requires i < |data| && CommitCrc(data[i := x], w) == CommitCrc(data, w)
    ensures x == data[i]
  {
    hide C.Crc, Le64, CommitCrc;
    CommitCrcIs(data, w);
    CommitCrcIs(data[i := x], w);
    UpdateFront(data, Le64(w), i, x);
    C.NatTells(C.Crc(0, data[i := x] + Le64(w)), C.Crc(0, data + Le64(w)));
    C.UpdateTells(0, data + Le64(w), i, x);
  }

  lemma LongCommitCrcTells(data: seq<Byte>, i: nat, x: Byte, t: nat, length: Word)
    requires t < 256 && i < |data| && LongCommitCrc(data[i := x], t, length) == LongCommitCrc(data, t, length)
    ensures x == data[i]
  {
    hide C.Crc, Le64, LongCommitCrc, Tag;
    var r := Le64(Tag(t)) + Le64(length) + Le64(Tag(8));
    LongCommitCrcIs(data, t, length);
    LongCommitCrcIs(data[i := x], t, length);
    assert data + Le64(Tag(t)) + Le64(length) + Le64(Tag(8)) == data + r;
    assert data[i := x] + Le64(Tag(t)) + Le64(length) + Le64(Tag(8)) == data[i := x] + r;
    UpdateFront(data, r, i, x);
    C.NatTells(C.Crc(0, data[i := x] + r), C.Crc(0, data + r));
    C.UpdateTells(0, data + r, i, x);
  }

  // ---------- a log ----------

  datatype Item =
    | KeyVal(key: Key, val: seq<Byte>)
    | Delete(key: Key)
    | Commit(length: nat, crc: nat)
    | LongCommit(length: nat, crc: nat)

  /** What the encoders write. */
  ghost predicate Writable(item: Item)
  {
    match item
    case KeyVal(key, val) => Fits(key) && Fits(val)
    case Delete(key) => Fits(key)
    case Commit(length, crc) => length <= MAX_SHORT_VAL_LEN && crc < TWO_32
    case LongCommit(length, crc) => length < TWO_64 && crc < TWO_32
  }

  /** What a reader can go past: not a long deletion, which has no type, nor a long commit. */
  predicate Passable(item: Item)
  {
    !item.LongCommit? && (item.Delete? ==> |item.key| <= MAX_SHORT_KEY_LEN)
  }

  ghost predicate AllPassable(log: seq<Item>)
  {
    forall i :: 0 <= i < |log| ==> Passable(log[i])
  }

  function Encode(item: Item): seq<Byte>
    requires Writable(item)
  {
    match item
    case KeyVal(key, val) => EncodeKey(key) + EncodeVal(val)
    case Delete(key) => EncodeDelete(key)
    case Commit(length, crc) => EncodeCommit(COMMIT, length, crc)
    case LongCommit(length, crc) => EncodeLongCommit(LONG_COMMIT, length, crc)
  }

  /** The rows an item puts. */
  function ItemRows(item: Item): seq<Row>
  {
    match item
    case KeyVal(key, val) => [Row(key, val, false)]
    case Delete(key) => [Row(key, [], true)]
    case Commit(_, _) => []
    case LongCommit(_, _) => []
  }

  ghost predicate AllWritable(log: seq<Item>)
  {
    forall i :: 0 <= i < |log| ==> Writable(log[i])
  }

  /** The first n items as they stand in the file. */
  ghost function LogBytes(log: seq<Item>, n: nat): seq<Byte>
    requires AllWritable(log) && n <= |log|
  {
    if n == 0 then [] else LogBytes(log, n - 1) + Encode(log[n - 1])
  }

  /** The rows that the first n items put. */
  ghost function LogRows(log: seq<Item>, n: nat): seq<Row>
    requires n <= |log|
  {
    if n == 0 then [] else LogRows(log, n - 1) + ItemRows(log[n - 1])
  }

  /** A commit at the end of data: its length reaches back into it and its CRC is right. */
  ghost predicate Sealed(data: seq<Byte>, item: Item)
  {
    item.Commit? && item.length <= MAX_SHORT_VAL_LEN ==>
      && item.length <= |data|
      && item.crc == CommitCrc(data[|data| - item.length..], CommitWord(COMMIT, item.length))
  }

  /** Item k of a log that follows a header is no commit, or a good one. */
  ghost predicate SealedAt(hdr: seq<Byte>, log: seq<Item>, k: nat)
    requires AllWritable(log) && k < |log|
  {
    Sealed(hdr + LogBytes(log, k), log[k])
  }

  /** Every commit of a log that follows a header is good. */
  ghost predicate AllSealed(hdr: seq<Byte>, log: seq<Item>)
    requires AllWritable(log)
  {
    forall k :: 0 <= k < |log| ==> SealedAt(hdr, log, k)
  }

  /**
   A reader looks at nothing but the file: short commits reach back no further than its beginning,
   and there are no long ones, whose verification takes the length for an address.
   */
  ghost predicate StaysInside(hdr: seq<Byte>, log: seq<Item>)
    requires AllWritable(log)
  {
    forall k :: 0 <= k < |log| ==> Inside(hdr, log, k)
  }

  ghost predicate Inside(hdr: seq<Byte>, log: seq<Item>, k: nat)
    requires AllWritable(log) && k < |log|
  {
    !log[k].LongCommit? && (log[k].Commit? ==> log[k].length <= |hdr + LogBytes(log, k)|)
  }

  /** What stands after the first n items. */
  lemma {:induction false} LogSplit(log: seq<Item>, n: nat, m: nat) returns (rest: seq<Byte>)
    requires AllWritable(log) && n <= m <= |log|
    ensures LogBytes(log, m) == LogBytes(log, n) + rest
    ensures n < m ==> |rest| >= 8
  {
    hide Encode, Writable;
    rest := [];
    if n < m {
      var mid := LogSplit(log, n, m - 1);
      EncodeAligned(log[m - 1]);
      rest := mid + Encode(log[m - 1]);
    }
  }

  lemma LogGrows(log: seq<Item>, n: nat, m: nat)
    requires AllWritable(log) && n <= m <= |log|
    ensures |LogBytes(log, n)| <= |LogBytes(log, m)|
    ensures n < m <==> |LogBytes(log, n)| < |LogBytes(log, m)|
  {
    var rest := LogSplit(log, n, m);
  }

  /** Every record is a whole number of words, and so a record starts at a whole number of words. */
  lemma {:induction false} LogAligned(log: seq<Item>, n: nat)
    requires AllWritable(log) && n <= |log|
    ensures |LogBytes(log, n)| % 8 == 0
  {
    hide Encode, Writable;
    if n > 0 {
      LogAligned(log, n - 1);
      EncodeAligned(log[n - 1]);
    }
  }

  /** Every record is a whole number of words. */
  lemma EncodeAligned(item: Item)
    requires Writable(item)
    ensures |Encode(item)| % 8 == 0 && |Encode(item)| >= 8
  {
    hide EncodeKey, EncodeVal, EncodeDelete, EncodeCommit, EncodeLongCommit;
    match item
    case KeyVal(key, val) => assert |Encode(item)| == KeyLen(key) + ValLen(val);
    case Delete(key) => assert |Encode(item)| == KeyLen(key);
    case Commit(_, _) =>
    case LongCommit(_, _) =>
  }

  /** Appending an item. */
  lemma LogAppend(log: seq<Item>, item: Item)
    requires AllWritable(log) && Writable(item)
    ensures AllWritable(log + [item])
    ensures forall n :: 0 <= n <= |log| ==> LogBytes(log + [item], n) == LogBytes(log, n)
    ensures LogBytes(log + [item], |log| + 1) == LogBytes(log, |log|) + Encode(item)
    ensures LogRows(log + [item], |log| + 1) == LogRows(log, |log|) + ItemRows(item)
    ensures forall n :: 0 <= n <= |log| ==> LogRows(log + [item], n) == LogRows(log, n)
  {
    hide Encode, Writable;
    forall n | 0 <= n <= |log|
      ensures LogBytes(log + [item], n) == LogBytes(log, n) && LogRows(log + [item], n) == LogRows(log, n)
    {
      LogPrefix(log + [item], log, n);
    }
  }

  lemma {:induction false} LogPrefix(a: seq<Item>, b: seq<Item>, n: nat)
    requires AllWritable(a) && AllWritable(b) && n <= |a| && n <= |b|
    requires forall i :: 0 <= i < n ==> a[i] == b[i]
    ensures LogBytes(a, n) == LogBytes(b, n) && LogRows(a, n) == LogRows(b, n)
  {
    hide Encode, Writable, ItemRows;
    if n > 0 {
      LogPrefix(a, b, n - 1);
    }
  }

  // ---------- reading back ----------

  /** s stands at position i of buf. */
  ghost predicate At(buf: seq<Byte>, i: nat, s: seq<Byte>)
  {
    i + |s| <= |buf| && buf[i..i + |s|] == s
  }

  lemma AtInside(buf: seq<Byte>, i: nat, s: seq<Byte>)
    requires At(buf, i, s)
    ensures i + |s| <= |buf|
  {
  }

  lemma AtSplit(buf: seq<Byte>, i: nat, a: seq<Byte>, b: seq<Byte>)
    ensures At(buf, i, a + b) <==> At(buf, i, a) && At(buf, i + |a|, b)
  {
    if i + |a| + |b| <= |buf| {
      var x := buf[i..i + |a + b|];
      assert x[..|a|] == buf[i..i + |a|] && x[|a|..] == buf[i + |a|..i + |a| + |b|];
      assert x == x[..|a|] + x[|a|..];
      assert (a + b)[..|a|] == a && (a + b)[|a|..] == b;
    }
  }

  lemma AtMiddle(buf: seq<Byte>, i: nat, a: seq<Byte>, b: seq<Byte>, c: seq<Byte>)
    requires At(buf, i, a + b + c)
    ensures At(buf, i, a) && At(buf, i + |a|, b) && At(buf, i + |a| + |b|, c)
  {
    hide At;
    AtSplit(buf, i, a + b, c);
    AtSplit(buf, i, a, b);
  }

  lemma WordAt(buf: seq<Byte>, i: nat, w: Word)
    requires At(buf, i, Be64(w))
    ensures ReadBe64(buf, i) == w
  {
    Be64RoundTrip(buf, i, w);
  }

  lemma PaddedAt(buf: seq<Byte>, i: nat, s: seq<Byte>)
    requires At(buf, i, Padded(s))
    ensures buf[i..i + |s|] == s
  {
    assert buf[i..i + |Padded(s)|][..|s|] == s;
  }

  lemma WordInside(buf: seq<Byte>, i: nat, w: Word)
    requires At(buf, i, Be64(w))
    ensures i + 8 <= |buf| && ReadBe64(buf, i) == w
  {
    WordAt(buf, i, w);
  }

  lemma PaddedInside(buf: seq<Byte>, i: nat, s: seq<Byte>)
    requires At(buf, i, Padded(s))
    ensures i + RoundUp8(|s|) <= |buf| && buf[i..i + |s|] == s
  {
    PaddedAt(buf, i, s);
  }

  lemma KeyAt(buf: seq<Byte>, i: nat, key: Key)
    requires Fits(key) && At(buf, i, EncodeKey(key))
    ensures i + KeyLen(key) <= |buf| && ReadBe64(buf, i) == KeyWord(key)
    ensures |key| > MAX_SHORT_KEY_LEN ==> ReadBe64(buf, i + 8) == |key| && ReadBe64(buf, i + 16) == KeyLen(key)
    ensures buf[i + KEY_BASE_SIZE..i + KEY_BASE_SIZE + |key|] == key
  {
    hide Be64, At, ReadBe64;
    var long := |key| > MAX_SHORT_KEY_LEN;
    var a, b, c := Be64(KeyWord(key)), Be64(if long then |key| else 0), Be64(if long then KeyLen(key) else 0);
    AtSplit(buf, i, a + b + c, Padded(key));
    AtSplit(buf, i, a + b, c);
    AtSplit(buf, i, a, b);
    WordInside(buf, i, KeyWord(key));
    WordInside(buf, i + 8, if long then |key| else 0);
    WordInside(buf, i + 16, if long then KeyLen(key) else 0);
    PaddedInside(buf, i + KEY_BASE_SIZE, key);
  }

  lemma ValAt(buf: seq<Byte>, i: nat, val: seq<Byte>)
    requires Fits(val) && At(buf, i, EncodeVal(val))
    ensures i + ValLen(val) <= |buf| && ReadBe64(buf, i) == ValWord(val)
    ensures |val| > MAX_SHORT_VAL_LEN ==> ReadBe64(buf, i + 8) == |val|
    ensures buf[i + VAL_BASE_SIZE..i + VAL_BASE_SIZE + |val|] == val
  {
    hide Be64, At, ReadBe64;
    var n := if |val| > MAX_SHORT_VAL_LEN then |val| else 0;
    AtSplit(buf, i, Be64(ValWord(val)) + Be64(n), Padded(val));
    AtSplit(buf, i, Be64(ValWord(val)), Be64(n));
    WordInside(buf, i, ValWord(val));
    WordInside(buf, i + 8, n);
    PaddedInside(buf, i + VAL_BASE_SIZE, val);
  }

  lemma DeleteAt(buf: seq<Byte>, i: nat, key: Key)
    requires Fits(key) && At(buf, i, EncodeDelete(key))
    ensures i + KeyLen(key) <= |buf| && ReadBe64(buf, i) == DeleteWord(key)
    ensures buf[i + KEY_BASE_SIZE..i + KEY_BASE_SIZE + |key|] == key
  {
    hide Be64, At, ReadBe64;
    var a, b := Be64(DeleteWord(key)), Be64(if |key| > MAX_SHORT_KEY_LEN then |key| else 0);
    AtSplit(buf, i, a + b + Be64(0), Padded(key));
    AtSplit(buf, i, a + b, Be64(0));
    AtSplit(buf, i, a, b);
    WordInside(buf, i, DeleteWord(key));
    PaddedInside(buf, i + KEY_BASE_SIZE, key);
  }
}
