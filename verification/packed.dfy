/** Packed files: writing one from a memtree, opening one, and searching one. */
module Packed {
  import opened Bytes
  import opened Format
  import opened PackedFormat
  import opened Rows
  import opened Words
  import opened Wrappers
  import opened Writer
  import C = Crc32c
  import Fast = Crc32cFast
  import MF = MFile
  import Record
  import RT = RowTree

  // ---------- writing ----------

  method WriteRecord(mf: MF.MFile, row: Row)
    requires AtEnd(mf) && Writable(ItemOf(row))
    modifies mf
    ensures AtEnd(mf) && mf.buf == old(mf.buf) + Encode(ItemOf(row)) && SameCrc(mf)
  {
    hide EncodeKey, EncodeVal, EncodeDelete, AtEnd;
    if row.deleted {
      WriteDelete(mf, row.key);
    } else {
      WriteKeyVal(mf, row.key, row.val);
    }
  }

  /** Writes the records one after the other and notes where each starts. */
  method WriteRecords(mf: MF.MFile, rows: seq<Row>) returns (index: seq<Word>)
    requires AtEnd(mf) && |mf.buf| == HDR_SIZE && Packable(rows)
    modifies mf
    ensures AtEnd(mf) && mf.buf == old(mf.buf) + Records(rows) && SameCrc(mf) && index == Offsets(rows)
  {
    hide Encode, Writable, ItemOf;
    index := [];
    var i := 0;
    ghost var items := Items(rows);
    while i < |rows|
      invariant i <= |rows| == |items| && AtEnd(mf) && SameCrc(mf)
      invariant mf.buf == old(mf.buf) + LogBytes(items, i)
      invariant index == Offsets(rows)[..i]
    {
      LogGrows(items, i, |rows|);
      assert Writable(items[i]) && mf.offset == OffsetOf(rows, i);
      index := index + [mf.offset];
      WriteRecord(mf, rows[i]);
      i := i + 1;
    }
  }

  method WritePointers(mf: MF.MFile, index: seq<Word>)
    requires AtEnd(mf) && |index| < TWO_64
    modifies mf
    ensures AtEnd(mf) && mf.buf == old(mf.buf) + Pointers(index, |index|) && SameCrc(mf)
  {
    hide Be64;
    mf.Write(Be64(|index|));
    var i := 0;
    while i < |index|
      invariant i <= |index| && AtEnd(mf) && SameCrc(mf)
      invariant mf.buf == old(mf.buf) + Pointers(index, i)
    {
      mf.Write(Be64(index[i]));
      i := i + 1;
    }
  }

  /** A file with its header, and the CRC begun. */
  method NewFile(hdr: seq<Byte>) returns (mf: MF.MFile)
    requires |hdr| == HDR_SIZE
    ensures fresh(mf) && AtEnd(mf) && mf.buf == hdr && mf.computeCrc && mf.crcBegin == HDR_SIZE
  {
    mf := new MF.MFile([]);
    mf.Write(hdr);
    mf.CrcStart();
    var r := mf.Seek(HDR_SIZE);
  }

  /** The records and the commit over them. */
  method WriteHead(mf: MF.MFile, rows: seq<Row>) returns (index: seq<Word>)
    requires AtEnd(mf) && |mf.buf| == mf.crcBegin == HDR_SIZE && mf.computeCrc && Packable(rows)
    modifies mf
    ensures AtEnd(mf) && index == Offsets(rows)
    ensures mf.buf == old(mf.buf) + Records(rows) + CommitFor(Records(rows), false)
  {
    RecordsFit(rows);
    hide CommitFor, Records, Packable;
    ghost var hdr := mf.buf;
    index := WriteRecords(mf, rows);
    assert (hdr + Records(rows))[HDR_SIZE..] == Records(rows);
    WriteCommit(mf, false);
  }

  /** The pointers and the final commit over them. */
  method WriteTail(mf: MF.MFile, index: seq<Word>)
    requires AtEnd(mf) && |index| < TWO_61 - 8
    modifies mf
    ensures AtEnd(mf)
    ensures var pointers := Pointers(index, |index|);
      mf.buf == old(mf.buf) + pointers + FinalCommit(pointers, FinalCrc(pointers))
  {
    ghost var pointers, before := Pointers(index, |index|), mf.buf;
    FinalIsCommit(pointers);
    hide CommitFor, Pointers, FinalCommit, FinalCrc;
    mf.CrcStart();
    WritePointers(mf, index);
    assert (before + pointers)[|before|..] == pointers;
    WriteCommit(mf, true);
  }

  /** Records, a commit over them, pointers, and a final commit over those. */
  method WriteFile(hdr: seq<Byte>, rows: seq<Row>) returns (mf: MF.MFile, index: seq<Word>)
    requires |hdr| == HDR_SIZE && Packable(rows) && |rows| < TWO_61 - 8
    ensures fresh(mf) && mf.buf == File(hdr, rows) && index == Offsets(rows)
  {
    hide CommitFor, Records, Pointers, Packable, FinalCommit, FinalCrc, AtEnd;
    mf := NewFile(hdr);
    index := WriteHead(mf, rows);
    WriteTail(mf, index);
  }

  /** Packs the rows of a memtree. */
  method NewFromMemtree(hdr: seq<Byte>, tree: RT.RowTree) returns (mf: MF.MFile, index: seq<Word>)
    requires tree.Valid() && |hdr| == HDR_SIZE && Packable(tree.rows) && |tree.rows| < TWO_61 - 8
    ensures fresh(mf) && mf.buf == File(hdr, tree.rows) && index == Offsets(tree.rows)
  {
    hide Packable, File, RT.RowTree.Valid;
    var rows := tree.Walk();
    mf, index := WriteFile(hdr, rows);
  }

  // ---------- opening ----------

  /** A pointer section data between what comes before it and a final commit. */
  ghost predicate Tailed(buf: seq<Byte>, pre: seq<Byte>, data: seq<Byte>, crc: nat)
  {
    |data| < TWO_64 && crc < TWO_32 && buf == pre + data + FinalCommit(data, crc)
  }

  lemma TailAt(buf: seq<Byte>, pre: seq<Byte>, data: seq<Byte>, crc: nat)
    requires Tailed(buf, pre, data, crc)
    ensures At(buf, |pre|, data) && At(buf, |pre| + |data|, FinalCommit(data, crc))
    ensures |FinalCommit(data, crc)| == if |data| > MAX_SHORT_VAL_LEN then LONG_COMMIT_SIZE else SHORT_COMMIT_SIZE
    ensures |buf| == |pre| + |data| + |FinalCommit(data, crc)|
    ensures buf[|pre|..|pre| + |data|] == data
  {
    hide FinalCommit;
    assert buf[0..0 + |buf|] == buf;
    AtMiddle(buf, 0, pre, data, FinalCommit(data, crc));
    FinalLength(data, crc);
  }

  /** The words of the final commit, and how long the file is. */
  lemma TailWords(buf: seq<Byte>, pre: seq<Byte>, data: seq<Byte>, crc: nat)
    requires Tailed(buf, pre, data, crc)
    ensures var end, long := |pre| + |data|, |data| > MAX_SHORT_VAL_LEN;
      && |buf| == end + (if long then LONG_COMMIT_SIZE else SHORT_COMMIT_SIZE)
      && buf[|pre|..end] == data
      && (if long then
        && TypeOf(ReadBe64(buf, end)) == LONG_FINAL && ReadBe64(buf, end) == Tag(LONG_FINAL)
        && ReadBe64(buf, end + 8) == |data|
        && TypeOf(ReadBe64(buf, end + 16)) == SECOND_HALF_COMMIT && ReadBe64(buf, end + 16) % TWO_32 == crc
        && ReadBe64(buf, end + 16) / TWO_56 * TWO_56 == Tag(SECOND_HALF_COMMIT)
      else
        var w := ReadBe64(buf, end);
        && TypeOf(w) == FINAL && w / TWO_32 % TWO_24 == |data| && w % TWO_32 == crc
        && w - w % TWO_32 == CommitWord(FINAL, |data|))
  {
    hide FinalCommit, ReadBe64, TypeOf, Tag, CommitWord;
    TailAt(buf, pre, data, crc);
    if |data| > MAX_SHORT_VAL_LEN {
      LongFinalAt(buf, |pre| + |data|, data, crc);
    } else {
      ShortFinalAt(buf, |pre| + |data|, data, crc);
    }
  }

  lemma FinalLength(data: seq<Byte>, crc: nat)
    requires |data| < TWO_64 && crc < TWO_32
    ensures |FinalCommit(data, crc)| == if |data| > MAX_SHORT_VAL_LEN then LONG_COMMIT_SIZE else SHORT_COMMIT_SIZE
  {
  }

  /**
   From the last word of the file, or, having seen that it is a second half, from the first
   word of the long final commit: where the pointers start, the stored CRC and the final commit.
   */
  method GetOffsetToPointers(buf: seq<Byte>, offset: nat, checksum: nat,
                             ghost pre: seq<Byte>, ghost data: seq<Byte>, ghost crc: nat)
    returns (ok: bool, offset': nat, checksum': nat, crcOffset: nat, t: nat)
    requires Tailed(buf, pre, data, crc)
    requires offset + 8 == |buf| || (offset + 24 == |buf| && |data| > MAX_SHORT_VAL_LEN && checksum == crc)
    ensures ok && offset' == |pre| && checksum' == crc && crcOffset == |pre| + |data|
    ensures t == if |data| > MAX_SHORT_VAL_LEN then LONG_FINAL else FINAL
    decreases offset
  {
    hide Tailed, FinalCommit, ReadBe64, At, TypeOf, Tag, CommitWord;
    TailWords(buf, pre, data, crc);
    ok, offset', checksum', crcOffset, t := true, offset, checksum, 0, 0;
    var w := ReadBe64(buf, offset);
    if TypeOf(w) == FINAL {
      checksum', crcOffset, t := w % TWO_32, offset, FINAL;
      offset' := offset - w / TWO_32 % TWO_24;
    } else if TypeOf(w) == SECOND_HALF_COMMIT {
      crcOffset, checksum' := offset + 4, w % TWO_32;
      offset' := offset - (LONG_COMMIT_SIZE - SHORT_COMMIT_SIZE);
      var r;
      r, offset', checksum', crcOffset, t := GetOffsetToPointers(buf, offset', checksum', pre, data, crc);
    } else if TypeOf(w) == LONG_FINAL {
      crcOffset, t := offset, LONG_FINAL;
      offset' := offset - ReadBe64(buf, offset + 8);
    } else {
      ok := false;
    }
  }

  /** The CRC of the pointer section and of the final commit without its own CRC. */
  method PointersCrc(buf: seq<Byte>, offset: nat, crcOffset: nat, t: nat,
                     ghost pre: seq<Byte>, ghost data: seq<Byte>, ghost stored: nat)
    returns (crc: nat)
    requires Tailed(buf, pre, data, stored) && offset == |pre| && crcOffset == |pre| + |data|
    requires t == if |data| > MAX_SHORT_VAL_LEN then LONG_FINAL else FINAL
    ensures crc == FinalCrc(data)
  {
    hide Tailed, FinalCommit, ReadBe64, At, C.Crc, Le64, Tag, CommitWord;
    TailWords(buf, pre, data, stored);
    C.CrcOfNothing(0);
    if t == LONG_FINAL {
      var end := |buf| - LONG_COMMIT_SIZE;
      var c := Fast.CrcHw(0, buf[offset..end], offset);
      c := Fast.CrcHw(c, Le64(ReadBe64(buf, crcOffset)), 0);
      c := Fast.CrcHw(c, Le64(ReadBe64(buf, crcOffset + 8)), 0);
      var w := ReadBe64(buf, crcOffset + 16);
      c := Fast.CrcHw(c, Le64(w / TWO_56 * TWO_56), 0);
      crc := c as nat;
    } else {
      var end := |buf| - SHORT_COMMIT_SIZE;
      var c := Fast.CrcHw(0, buf[offset..end], offset);
      var w := ReadBe64(buf, crcOffset);
      c := Fast.CrcHw(c, Le64(w - w % TWO_32), 0);
      crc := c as nat;
    }
  }

  /** Reads the count and then as many offsets. */
  method ReadPointers(buf: seq<Byte>, offset: nat, ghost offsets: seq<Word>) returns (index: seq<Word>)
    requires |offsets| < TWO_64 && At(buf, offset, Pointers(offsets, |offsets|))
    ensures index == offsets
  {
    CountAt(buf, offset, offsets);
    hide At, Pointers, ReadBe64;
    index := [];
    var count, i := ReadBe64(buf, offset), 0;
    while i < count
      invariant i <= count == |offsets| && index == offsets[..i]
    {
      PointerAt(buf, offset, offsets, i);
      index := index + [ReadBe64(buf, offset + 8 + 8 * i)];
      i := i + 1;
    }
  }

  /**
   Opens a packed file: from its end to the pointers, whose CRC must be the stored one.  A file no
   longer than a header is no packed file.  That the pointers are those of offsets matters only if
   the CRC is right.
   */
  method OpenTail(buf: seq<Byte>, ghost pre: seq<Byte>, ghost data: seq<Byte>, ghost offsets: seq<Word>,
                  ghost crc: nat)
    returns (ok: bool, index: seq<Word>)
    requires |buf| > HDR_SIZE ==>
      && Tailed(buf, pre, data, crc)
      && (crc == FinalCrc(data) ==> |offsets| < TWO_64 && data == Pointers(offsets, |offsets|))
    ensures ok <==> |buf| > HDR_SIZE && crc == FinalCrc(data)
    ensures ok ==> index == offsets
  {
    index := [];
    if |buf| <= HDR_SIZE {
      return false, [];
    }
    hide FinalCommit, FinalCrc, Pointers;
    var offset, stored, crcOffset, t;
    ok, offset, stored, crcOffset, t := GetOffsetToPointers(buf, |buf| - SHORT_COMMIT_SIZE, 0, pre, data, crc);
    var computed := PointersCrc(buf, offset, crcOffset, t, pre, data, crc);
    if computed != stored {
      return false, [];
    }
    TailAt(buf, pre, data, crc);
    index := ReadPointers(buf, offset, offsets);
  }

  /** What comes before the pointers. */
  ghost function Front(hdr: seq<Byte>, rows: seq<Row>): seq<Byte>
    requires Packable(rows)
  {
    RecordsFit(rows);
    hdr + Records(rows) + CommitFor(Records(rows), false)
  }

  lemma OpenParts(buf: seq<Byte>, hdr: seq<Byte>, rows: seq<Row>, crc: nat)
    requires Packable(rows) && |rows| < TWO_61 - 8 && crc < TWO_32 && buf == FileWith(hdr, rows, crc)
    ensures Tailed(buf, Front(hdr, rows), Pointers(Offsets(rows), |rows|), crc) && |buf| >= 8
  {
    hide Records, CommitFor, Pointers, FinalCommit, Packable;
    FinalLength(Pointers(Offsets(rows), |rows|), crc);
  }

  /** Opens a file that has been written, its final commit having some CRC. */
  method Open(buf: seq<Byte>, ghost hdr: seq<Byte>, ghost rows: seq<Row>, ghost crc: nat)
    returns (ok: bool, index: seq<Word>)
    requires |hdr| == HDR_SIZE && Packable(rows) && |rows| < TWO_61 - 8 && crc < TWO_32
    requires |buf| > HDR_SIZE ==> buf == FileWith(hdr, rows, crc)
    ensures ok <==> |buf| > HDR_SIZE && crc == FinalCrc(Pointers(Offsets(rows), |rows|))
    ensures ok ==> index == Offsets(rows)
  {
    hide FileWith, FinalCommit, FinalCrc, Pointers, Packable, Tailed;
    if |buf| > HDR_SIZE {
      OpenParts(buf, hdr, rows, crc);
    }
    ok, index := OpenTail(buf, Front(hdr, rows), Pointers(Offsets(rows), |rows|), Offsets(rows), crc);
  }

  lemma FileLong(hdr: seq<Byte>, rows: seq<Row>)
    requires |hdr| == HDR_SIZE && Packable(rows) && |rows| < TWO_61 - 8
    ensures |File(hdr, rows)| > HDR_SIZE
  {
    hide Records, CommitFor, FinalCommit, FinalCrc, Packable;
  }

  lemma FileTailed(buf: seq<Byte>, hdr: seq<Byte>, rows: seq<Row>)
    requires |hdr| == HDR_SIZE && Packable(rows) && |rows| < TWO_61 - 8 && buf == File(hdr, rows)
    ensures var data := Pointers(Offsets(rows), |rows|);
      Tailed(buf, Front(hdr, rows), data, FinalCrc(data)) && |buf| > HDR_SIZE
  {
    hide FileWith, Pointers, FinalCrc, Packable, Tailed;
    OpenParts(buf, hdr, rows, FinalCrc(Pointers(Offsets(rows), |rows|)));
    FileLong(hdr, rows);
  }

  /** A changed byte of the pointers stands where it was, and the final commit stays as it is. */
  lemma TailChanged(buf: seq<Byte>, pre: seq<Byte>, data: seq<Byte>, crc: nat, i: nat, x: Byte)
    requires Tailed(buf, pre, data, crc) && i < |data| && |pre| + i < |buf|
    ensures Tailed(buf[|pre| + i := x], pre, data[i := x], crc) && buf[|pre| + i] == data[i]
  {
    var f := FinalCommit(data, crc);
    assert FinalCommit(data[i := x], crc) == f;
    hide FinalCommit;
    assert (pre + data + f)[|pre| + i := x] == pre + data[i := x] + f;
  }

  lemma FinalCrcTells(data: seq<Byte>, i: nat, x: Byte)
    requires |data| < TWO_64 && i < |data|
    ensures FinalCrc(data[i := x]) == FinalCrc(data) <==> x == data[i]
  {
    hide CommitCrc, LongCommitCrc;
    if x == data[i] {
      assert data[i := x] == data;
    } else if FinalCrc(data[i := x]) == FinalCrc(data) {
      if |data| > MAX_SHORT_VAL_LEN {
        LongCommitCrcTells(data, i, x, LONG_FINAL, |data|);
      } else {
        CommitCrcTells(data, i, x, CommitWord(FINAL, |data|));
      }
      assert false;
    }
  }

  /** A pointer section and its final commit, of which one byte of the pointers has become another. */
  method OpenChangedTail(buf: seq<Byte>, ghost pre: seq<Byte>, ghost offsets: seq<Word>, i: nat, x: Byte)
    returns (ok: bool)
    requires |offsets| < TWO_61 - 8 && |buf| > HDR_SIZE
    requires var data := Pointers(offsets, |offsets|); Tailed(buf, pre, data, FinalCrc(data))
    requires |pre| <= i < |pre| + 8 + 8 * |offsets| && i < |buf|
    ensures ok <==> x == buf[i]
  {
    ghost var data := Pointers(offsets, |offsets|);
    hide FinalCommit, FinalCrc, Pointers, Tailed;
    ghost var j := i - |pre|;
    TailChanged(buf, pre, data, FinalCrc(data), j, x);
    FinalCrcTells(data, j, x);
    assert x == data[j] ==> data[j := x] == data;
    var index;
    ok, index := OpenTail(buf[i := x], pre, data[j := x], offsets, FinalCrc(data));
  }

  /** A file that opens does not when one byte of its pointers has become another. */
  method OpenChanged(hdr: seq<Byte>, ghost rows: seq<Row>, buf: seq<Byte>, i: nat, x: Byte) returns (ok: bool)
    requires |hdr| == HDR_SIZE && Packable(rows) && |rows| < TWO_61 - 8 && buf == File(hdr, rows)
    requires |Front(hdr, rows)| <= i < |Front(hdr, rows)| + 8 + 8 * |rows| && i < |buf|
    ensures ok <==> x == buf[i]
  {
    hide File, FileWith, FinalCommit, FinalCrc, Pointers, Packable, Tailed, Front;
    FileTailed(buf, hdr, rows);
    ok := OpenChangedTail(buf, Front(hdr, rows), Offsets(rows), i, x);
  }

  // ---------- searching ----------

  /** Record i of the file stands where its pointer says. */
  lemma RecordAt(buf: seq<Byte>, hdr: seq<Byte>, rows: seq<Row>, crc: nat, i: nat)
    requires |hdr| == HDR_SIZE && Packable(rows) && |rows| < TWO_61 - 8 && crc < TWO_32
    requires buf == FileWith(hdr, rows, crc) && i < |rows|
    ensures At(buf, OffsetOf(rows, i), Encode(ItemOf(rows[i])))
  {
    hide Encode, Writable, CommitFor, Pointers, FinalCommit, ItemOf;
    var items := Items(rows);
    var rest := LogSplit(items, i + 1, |rows|);
    var tail := CommitFor(Records(rows), false) + Pointers(Offsets(rows), |rows|)
                + FinalCommit(Pointers(Offsets(rows), |rows|), crc);
    assert buf == (hdr + LogBytes(items, i)) + Encode(items[i]) + (rest + tail);
    assert buf[0..0 + |buf|] == buf;
    AtMiddle(buf, 0, hdr + LogBytes(items, i), Encode(items[i]), rest + tail);
  }

  /** The file and its pointers are those of sorted rows. */
  ghost predicate Indexed(buf: seq<Byte>, index: seq<Word>, rows: seq<Row>)
  {
    && SortedRows(rows) && |index| == |rows|
    && forall i :: 0 <= i < |rows| ==> Points(buf, index, rows, i)
  }

  ghost predicate Points(buf: seq<Byte>, index: seq<Word>, rows: seq<Row>, i: nat)
    requires i < |index| && i < |rows|
  {
    && Writable(ItemOf(rows[i])) && Passable(ItemOf(rows[i]))
    && At(buf, index[i], Encode(ItemOf(rows[i])))
  }

  /** An opened file is indexed. */
  lemma FileIndexed(buf: seq<Byte>, hdr: seq<Byte>, rows: seq<Row>, crc: nat)
    requires |hdr| == HDR_SIZE && Packable(rows) && |rows| < TWO_61 - 8 && crc < TWO_32 && SortedRows(rows)
    requires buf == FileWith(hdr, rows, crc) && AllPassable(Items(rows))
    ensures Indexed(buf, Offsets(rows), rows)
  {
    hide Encode, Writable, Passable, ItemOf, FileWith, At;
    forall i | 0 <= i < |rows| ensures Points(buf, Offsets(rows), rows, i) {
      RecordAt(buf, hdr, rows, crc, i);
      assert Writable(Items(rows)[i]) && Passable(Items(rows)[i]);
    }
  }

  /** Comparing with one row of sorted rows. */
  lemma Compared(rows: seq<Row>, key: Key, mi: nat)
    requires SortedRows(rows) && mi < |rows|
    ensures var c := MemcmpRaw(key, rows[mi].key);
      && (c == 0 ==> Has(rows, key) && Rank(rows, key) == mi)
      && (c > 0 ==> mi < Rank(rows, key))
      && (c < 0 ==> Rank(rows, key) <= mi && (Rank(rows, key) == mi ==> !Has(rows, key)))
  {
    MemcmpRawIsDictionaryOrder(key, rows[mi].key);
    AfterRank(rows, key, mi);
    LessTrichotomy(key, rows[mi].key);
    LessTrichotomy(rows[mi].key, key);
  }

  /**
   Searches the pointers of a packed file: finds a key that is there, where it is and its value,
   and otherwise the place of the first greater key.
   */
  method BsearchIndex(key: Key, buf: seq<Byte>, index: seq<Word>, ghost rows: seq<Row>)
    returns (found: bool, location: nat, value: Option<seq<Byte>>)
    requires Indexed(buf, index, rows)
    ensures found <==> Has(rows, key)
    ensures location == Rank(rows, key)
    ensures found && !rows[location].deleted ==> value == Some(rows[location].val)
  {
    hide Encode, Writable, Passable, At;
    var lo, hi := 0, |index|;
    value := None;
    while lo < hi
      invariant lo <= hi <= |rows| && lo <= Rank(rows, key) <= hi
      invariant Has(rows, key) ==> Rank(rows, key) < hi
    {
      var mi := lo + (hi - lo) / 2;
      var k;
      assert Points(buf, index, rows, mi);
      k, value := Read(buf, index[mi], rows[mi]);
      Compared(rows, key, mi);
      var c := MemcmpRaw(key, k);
      if c == 0 {
        return true, mi, value;
      }
      if c > 0 {
        lo := mi + 1;
      } else {
        hi := mi;
      }
    }
    found, location := false, lo;
  }

  /** Reads the record of a row. */
  method Read(buf: seq<Byte>, offset: nat, ghost row: Row) returns (key: Key, value: Option<seq<Byte>>)
    requires Writable(ItemOf(row)) && Passable(ItemOf(row)) && At(buf, offset, Encode(ItemOf(row)))
    ensures key == row.key && (!row.deleted ==> value == Some(row.val))
  {
    key, value := Record.ReadKeyValFromOffset(buf, offset, ItemOf(row));
  }

  /** Reads the key of a row's record, and whether that is a deletion. */
  method GetKeyFromOffset(buf: seq<Byte>, offset: nat, ghost row: Row) returns (key: Key, deleted: bool)
    requires Writable(ItemOf(row)) && Passable(ItemOf(row)) && At(buf, offset, Encode(ItemOf(row)))
    ensures key == row.key && deleted == row.deleted
  {
    hide Encode, At, ReadBe64, TypeOf, Passable, Writable;
    EncodeInside(buf, offset, ItemOf(row));
    ghost var _ := Record.TypeAt(buf, offset, Some(ItemOf(row)));
    var next;
    key, next := Record.ReadItemKey(buf, offset, ItemOf(row));
    var t := TypeOf(ReadBe64(buf, offset));
    deleted := t == DELETED || t == LONG_DELETED;
  }

  lemma EncodeInside(buf: seq<Byte>, offset: nat, item: Item)
    requires Writable(item) && At(buf, offset, Encode(item))
    ensures offset + 8 <= |buf|
  {
    hide Encode;
    EncodeAligned(item);
    AtInside(buf, offset, Encode(item));
  }

  /** Packing a memtree, opening the file and searching it agrees with the tree. */
  method PackAndSearch(hdr: seq<Byte>, tree: RT.RowTree, key: Key)
    returns (ok: bool, found: bool, location: nat, value: Option<seq<Byte>>)
    requires tree.Valid() && |hdr| == HDR_SIZE
    requires Packable(tree.rows) && |tree.rows| < TWO_61 - 8 && AllPassable(Items(tree.rows))
    ensures ok && (found <==> key in ToMap(tree.rows)) && location == Rank(tree.rows, key)
    ensures found && !ToMap(tree.rows)[key].deleted ==> value == Some(ToMap(tree.rows)[key].val)
  {
    hide Packable, AllPassable, FileWith, Pointers, FinalCrc, Indexed, RT.RowTree.Valid, ToMap;
    tree.RowsSorted();
    ghost var rows := tree.rows;
    FileLong(hdr, rows);
    var mf, index := NewFromMemtree(hdr, tree);
    ghost var crc := FinalCrc(Pointers(Offsets(rows), |rows|));
    ok, index := Open(mf.buf, hdr, rows, crc);
    FileIndexed(mf.buf, hdr, rows, crc);
    HasMap(rows, key);
    found, location, value := BsearchIndex(key, mf.buf, index, rows);
  }
}
