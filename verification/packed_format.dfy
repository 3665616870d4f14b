/** The layout of a packed file: sorted records, a commit, the pointers to them and a final commit. */
module PackedFormat {
  import opened Bytes
  import opened Format
  import opened Rows
  import opened Words

  /** What is written for a row; a deletion keeps no value. */
  function ItemOf(row: Row): Item
  {
    if row.deleted then Delete(row.key) else KeyVal(row.key, row.val)
  }

  ghost function Items(rows: seq<Row>): (items: seq<Item>)
    ensures |items| == |rows| && forall i :: 0 <= i < |rows| ==> items[i] == ItemOf(rows[i])
  {
    seq(|rows|, i requires 0 <= i < |rows| => ItemOf(rows[i]))
  }

  /** The rows can be written, and fit a file. */
  ghost predicate Packable(rows: seq<Row>)
  {
    AllWritable(Items(rows)) && HDR_SIZE + |LogBytes(Items(rows), |rows|)| < TWO_64
  }

  ghost function Records(rows: seq<Row>): seq<Byte>
    requires Packable(rows)
  {
    LogBytes(Items(rows), |rows|)
  }

  /** Where record i starts. */
  ghost function OffsetOf(rows: seq<Row>, i: nat): (w: Word)
    requires Packable(rows) && i <= |rows|
    ensures w == HDR_SIZE + |LogBytes(Items(rows), i)|
  {
    LogGrows(Items(rows), i, |rows|);
    HDR_SIZE + |LogBytes(Items(rows), i)|
  }

  ghost function Offsets(rows: seq<Row>): (offsets: seq<Word>)
    requires Packable(rows)
    ensures |offsets| == |rows| && forall i :: 0 <= i < |rows| ==> offsets[i] == OffsetOf(rows, i)
  {
    seq(|rows|, i requires 0 <= i < |rows| => OffsetOf(rows, i))
  }

  /** A count and the first n offsets. */
  function Pointers(offsets: seq<Word>, n: nat): (s: seq<Byte>)
    requires |offsets| < TWO_64 && n <= |offsets|
    ensures |s| == 8 + 8 * n
  {
    if n == 0 then Be64(|offsets|) else Pointers(offsets, n - 1) + Be64(offsets[n - 1])
  }

  /** The final commit over data, with any CRC. */
  function FinalCommit(data: seq<Byte>, crc: nat): seq<Byte>
    requires |data| < TWO_64 && crc < TWO_32
  {
    if |data| > MAX_SHORT_VAL_LEN then EncodeLongCommit(LONG_FINAL, |data|, crc) else EncodeCommit(FINAL, |data|, crc)
  }

  function FinalCrc(data: seq<Byte>): (crc: nat)
    requires |data| < TWO_64
    ensures crc < TWO_32
  {
    if |data| > MAX_SHORT_VAL_LEN then LongCommitCrc(data, LONG_FINAL, |data|)
    else CommitCrc(data, CommitWord(FINAL, |data|))
  }

  /** The whole file, its final commit having some CRC. */
  ghost function FileWith(hdr: seq<Byte>, rows: seq<Row>, crc: nat): seq<Byte>
    requires Packable(rows) && |rows| < TWO_61 - 8 && crc < TWO_32
  {
    var pointers := Pointers(Offsets(rows), |rows|);
    hdr + Records(rows) + CommitFor(Records(rows), false) + pointers + FinalCommit(pointers, crc)
  }

  /** The whole file as it is written. */
  ghost function File(hdr: seq<Byte>, rows: seq<Row>): seq<Byte>
    requires Packable(rows) && |rows| < TWO_61 - 8
  {
    FileWith(hdr, rows, FinalCrc(Pointers(Offsets(rows), |rows|)))
  }

  lemma RecordsFit(rows: seq<Row>)
    requires Packable(rows)
    ensures HDR_SIZE + |Records(rows)| < TWO_64
  {
  }

  lemma FinalIsCommit(data: seq<Byte>)
    requires |data| < TWO_64
    ensures CommitFor(data, true) == FinalCommit(data, FinalCrc(data))
  {
  }

  lemma {:induction false} PointersSplit(offsets: seq<Word>, k: nat, n: nat) returns (rest: seq<Byte>)
    requires |offsets| < TWO_64 && k <= n <= |offsets|
    ensures Pointers(offsets, n) == Pointers(offsets, k) + rest
  {
    rest := [];
    if k < n {
      var mid := PointersSplit(offsets, k, n - 1);
      rest := mid + Be64(offsets[n - 1]);
    }
  }

  lemma PointersStart(offsets: seq<Word>)
    requires |offsets| < TWO_64
    ensures Pointers(offsets, 0) == Be64(|offsets|)
  {
  }

  lemma PointersNext(offsets: seq<Word>, k: nat)
    requires |offsets| < TWO_64 && k < |offsets|
    ensures Pointers(offsets, k + 1) == Pointers(offsets, k) + Be64(offsets[k])
  {
  }

  lemma WordFits(buf: seq<Byte>, i: nat, w: Word)
    requires At(buf, i, Be64(w))
    ensures i + 8 <= |buf| && ReadBe64(buf, i) == w
  {
    WordAt(buf, i, w);
  }

  /** Reading the count back. */
  lemma CountAt(buf: seq<Byte>, i: nat, offsets: seq<Word>)
    requires |offsets| < TWO_64 && At(buf, i, Pointers(offsets, |offsets|))
    ensures i + 8 + 8 * |offsets| <= |buf| && ReadBe64(buf, i) == |offsets|
  {
    hide Be64, ReadBe64, Pointers;
    var rest := PointersSplit(offsets, 0, |offsets|);
    PointersStart(offsets);
    AtSplit(buf, i, Be64(|offsets|), rest);
    WordAt(buf, i, |offsets|);
  }

  /** Reading an offset back. */
  lemma PointerAt(buf: seq<Byte>, i: nat, offsets: seq<Word>, k: nat)
    requires |offsets| < TWO_64 && k < |offsets| && At(buf, i, Pointers(offsets, |offsets|))
    ensures i + 16 + 8 * k <= |buf| && ReadBe64(buf, i + 8 + 8 * k) == offsets[k]
  {
    hide Be64, ReadBe64, Pointers, At;
    var rest := PointersSplit(offsets, k + 1, |offsets|);
    PointersNext(offsets, k);
    AtMiddle(buf, i, Pointers(offsets, k), Be64(offsets[k]), rest);
    WordFits(buf, i + 8 + 8 * k, offsets[k]);
  }

  // ---------- the final commit, seen from its end ----------

  /** The word of a short final commit. */
  lemma ShortFinalAt(buf: seq<Byte>, i: nat, data: seq<Byte>, crc: nat)
    requires |data| <= MAX_SHORT_VAL_LEN && crc < TWO_32 && At(buf, i, FinalCommit(data, crc))
    ensures i + 8 <= |buf|
    ensures var w := ReadBe64(buf, i);
      TypeOf(w) == FINAL && w / TWO_32 % TWO_24 == |data| && w % TWO_32 == crc
      && w - w % TWO_32 == CommitWord(FINAL, |data|)
  {
    hide Be64, ReadBe64, At;
    LengthFields(FINAL, |data|, crc);
    WordFits(buf, i, CommitWord(FINAL, |data|) + crc);
  }

  /** The words of a long final commit. */
  lemma LongFinalAt(buf: seq<Byte>, i: nat, data: seq<Byte>, crc: nat)
    requires MAX_SHORT_VAL_LEN < |data| < TWO_64 && crc < TWO_32 && At(buf, i, FinalCommit(data, crc))
    ensures i + 24 <= |buf|
    ensures ReadBe64(buf, i) == Tag(LONG_FINAL) && TypeOf(Tag(LONG_FINAL)) == LONG_FINAL
    ensures ReadBe64(buf, i + 8) == |data|
    ensures var w := ReadBe64(buf, i + 16);
      TypeOf(w) == SECOND_HALF_COMMIT && w % TWO_32 == crc && w / TWO_56 * TWO_56 == Tag(SECOND_HALF_COMMIT)
  {
    hide Be64, ReadBe64, At;
    LengthFields(SECOND_HALF_COMMIT, 0, crc);
    AtMiddle(buf, i, Be64(Tag(LONG_FINAL)), Be64(|data|), Be64(Tag(SECOND_HALF_COMMIT) + crc));
    WordFits(buf, i, Tag(LONG_FINAL));
    WordFits(buf, i + 8, |data|);
    WordFits(buf, i + 16, Tag(SECOND_HALF_COMMIT) + crc);
  }
}
