/** What stands before the pointers of a packed file: a log like that of an active file, closed by a commit. */
module PackedLog {
  import opened Active
  import opened Bytes
  import opened Format
  import opened Packed
  import opened PackedFormat
  import opened Rows
  import opened Session
  import Record
  import RT = RowTree

  /** The records and the commit over them. */
  ghost function LogOf(rows: seq<Row>): seq<Item>
    requires Packable(rows)
  {
    RecordsFit(rows);
    Items(rows) + [CommitOf(Records(rows))]
  }

  /** Deletions have no value. */
  ghost predicate Plain(rows: seq<Row>)
  {
    forall i :: 0 <= i < |rows| && rows[i].deleted ==> rows[i].val == []
  }

  lemma RowOfItem(row: Row)
    requires row.deleted ==> row.val == []
    ensures ItemRows(ItemOf(row)) == [row] && !ItemOf(row).Commit? && !ItemOf(row).LongCommit?
  {
  }

  /** The records give their rows. */
  lemma {:induction false} RecordsRows(rows: seq<Row>, n: nat)
    requires Plain(rows) && n <= |rows|
    ensures LogRows(Items(rows), n) == rows[..n]
  {
    hide ItemOf, ItemRows;
    if n > 0 {
      RecordsRows(rows, n - 1);
      RowOfItem(rows[n - 1]);
      assert rows[..n] == rows[..n - 1] + [rows[n - 1]];
    }
  }

  lemma RecordsSealed(hdr: seq<Byte>, rows: seq<Row>)
    requires |hdr| == HDR_SIZE && Packable(rows) && Plain(rows)
    ensures Logged(hdr, Items(rows), hdr + Records(rows), [], Put([], rows))
  {
    hide ItemOf, ItemRows, Writable, Encode, Put, LogBytes, LogRows, Sealed;
    var items := Items(rows);
    forall k | 0 <= k < |items| ensures SealedAt(hdr, items, k) {
      RowOfItem(rows[k]);
      NoCommit(hdr + LogBytes(items, k), items[k]);
    }
    RecordsRows(rows, |rows|);
    assert rows[..|rows|] == rows;
  }

  /** What stands before the pointers is a header and a good log of the rows, the last item being a commit. */
  lemma FrontIsLog(hdr: seq<Byte>, rows: seq<Row>)
    requires |hdr| == HDR_SIZE && Packable(rows) && Plain(rows)
    ensures Logged(hdr, LogOf(rows), Front(hdr, rows), [], Put([], rows))
    ensures LogRows(LogOf(rows), |rows| + 1) == rows
    ensures AllPassable(LogOf(rows)) <==> AllPassable(Items(rows)) && |Records(rows)| <= MAX_SHORT_VAL_LEN
  {
    hide Logged, Records, CommitOf, Put, LogRows, ItemOf, ItemRows, AllPassable, Packable;
    RecordsFit(rows);
    var data := Records(rows);
    var item := CommitOf(data);
    assert (hdr + data)[|hdr + data| - |data|..] == data;
    Sealing(hdr + data, data);
    RecordsSealed(hdr, rows);
    Appended(hdr, Items(rows), hdr + data, [], Put([], rows), item);
    PutNone(Put([], rows));
    PassableMore(Items(rows), item);
    RecordsRows(rows, |rows|);
    assert rows[..|rows|] == rows;
    RowsMore(Items(rows), item);
  }

  /** The records stand after the 40 bytes of the header, then the commit over them, and then the pointers. */
  lemma CommitBefore(buf: seq<Byte>, hdr: seq<Byte>, rows: seq<Row>, crc: nat)
    requires |hdr| == 40 && Packable(rows) && |rows| < TWO_61 - 8 && crc < TWO_32
    requires buf == FileWith(hdr, rows, crc)
    ensures var (data, n) := (Records(rows), |Records(rows)|);
      && n < TWO_64 && At(buf, 40, data) && At(buf, 40 + n, CommitFor(data, false))
      && At(buf, 40 + n + |CommitFor(data, false)|, Pointers(Offsets(rows), |rows|))
      && |Front(hdr, rows)| == 40 + n + |CommitFor(data, false)| <= |buf|
      && buf[..|Front(hdr, rows)|] == Front(hdr, rows)
  {
    hide Records, CommitFor, Pointers, FinalCommit, Packable;
    RecordsFit(rows);
    var data, commit, pointers := Records(rows), CommitFor(Records(rows), false), Pointers(Offsets(rows), |rows|);
    var final := FinalCommit(pointers, crc);
    assert buf == hdr + data + (commit + pointers + final);
    assert buf[0..0 + |buf|] == buf;
    AtMiddle(buf, 0, hdr, data, commit + pointers + final);
    assert commit + pointers + final == commit + (pointers + final);
    AtSplit(buf, 40 + |data|, commit, pointers + final);
    AtSplit(buf, 40 + |data| + |commit|, pointers, final);
  }

  /** The first pointer leads behind the 40 bytes of the header. */
  lemma FirstOffset(rows: seq<Row>)
    requires Packable(rows) && rows != []
    ensures Offsets(rows)[0] == 40
  {
    assert LogBytes(Items(rows), 0) == [];
  }

  /** Putting sorted rows into nothing gives them. */
  lemma PutSorted(rows: seq<Row>)
    requires SortedRows(rows)
    ensures Put([], rows) == rows
  {
    hide Put, ToMap;
    NoRows();
    PutIsReplay([], rows);
    MapNone(ToMap(rows));
    SortedRowsUnique(Put([], rows), rows);
  }

  /** The pointers start where reading the file from its end leads to. */
  method PointersAt(buf: seq<Byte>, ghost hdr: seq<Byte>, ghost rows: seq<Row>) returns (offset: nat)
    requires |hdr| == HDR_SIZE && Packable(rows) && |rows| < TWO_61 - 8 && buf == File(hdr, rows)
    ensures offset == |Front(hdr, rows)| <= |buf| && buf[..offset] == Front(hdr, rows)
  {
    hide FileWith, Pointers, FinalCrc, Packable, Tailed, Front;
    FileTailed(buf, hdr, rows);
    ghost var data := Pointers(Offsets(rows), |rows|);
    CommitBefore(buf, hdr, rows, FinalCrc(data));
    var ok, checksum, crcOffset, t;
    ok, offset, checksum, crcOffset, t :=
      GetOffsetToPointers(buf, |buf| - SHORT_COMMIT_SIZE, 0, Front(hdr, rows), data, FinalCrc(data));
  }

  /** Where the short commit is, and the data that it covers. */
  lemma ShortCommitThere(buf: seq<Byte>, hdr: seq<Byte>, rows: seq<Row>)
    requires |hdr| == HDR_SIZE && Packable(rows) && |rows| < TWO_61 - 8 && buf == File(hdr, rows)
    requires |Records(rows)| <= MAX_SHORT_VAL_LEN
    ensures var (offset, data) := (|Front(hdr, rows)|, Records(rows));
      && |data| <= offset - 8 <= |buf| && buf[offset - 8 - |data|..offset - 8] == data
      && At(buf, offset - 8, EncodeCommit(COMMIT, |data|, CommitCrc(data, CommitWord(COMMIT, |data|))))
  {
    hide Records, Pointers, FinalCrc, Packable, FileWith, CommitCrc, EncodeCommit;
    CommitBefore(buf, hdr, rows, FinalCrc(Pointers(Offsets(rows), |rows|)));
  }

  /** The short commit right before the pointers is accepted. */
  method VerifyRecords(buf: seq<Byte>, offset: nat, ghost hdr: seq<Byte>, ghost rows: seq<Row>) returns (ok: bool)
    requires |hdr| == HDR_SIZE && Packable(rows) && |rows| < TWO_61 - 8 && buf == File(hdr, rows)
    requires offset == |Front(hdr, rows)| && |Records(rows)| <= MAX_SHORT_VAL_LEN
    ensures offset >= 8 && ok
  {
    hide Records, Packable, File, Front, CommitCrc, EncodeCommit, CommitWord, At;
    ShortCommitThere(buf, hdr, rows);
    ghost var data := Records(rows);
    var next;
    ok, next := Record.ReadAndVerifyCommit(buf, offset - 8, |data|, CommitCrc(data, CommitWord(COMMIT, |data|)));
  }

  /** Reads what stands before the pointers like an active file. */
  method ReplayFront(buf: seq<Byte>, ghost hdr: seq<Byte>, ghost rows: seq<Row>)
    returns (ok: bool, given: seq<Row>, copy: RT.RowTree)
    requires |hdr| == HDR_SIZE && Packable(rows) && Plain(rows) && buf == Front(hdr, rows)
    requires AllPassable(Items(rows)) && |Records(rows)| <= MAX_SHORT_VAL_LEN
    ensures ok && given == rows && copy.Valid() && copy.rows == Put([], rows)
  {
    FrontIsLog(hdr, rows);
    ghost var log := LogOf(rows);
    assert |log| == |rows| + 1;
    Filed(hdr, log, buf, [], Put([], rows));
    Replayed(hdr, log, buf, Put([], rows));
    hide Packable, Front, Records, LogOf, Logged, AllPassable, StaysInside, Terminates, Put, Plain, RT.RowTree.Valid,
      LogRows, Good, LogBytes;
    copy := new RT.RowTree();
    ok, given := RecordForeach(buf, copy, hdr, log);
  }

  /**
   Packs a memtree and reads the file back like an active one, up to the pointers: every commit is
   accepted, one of them right before the pointers, and the rows are those of the tree.
   */
  method PackAndReplay(hdr: seq<Byte>, tree: RT.RowTree)
    returns (committed: bool, ok: bool, given: seq<Row>, copy: RT.RowTree)
    requires tree.Valid() && |hdr| == HDR_SIZE && Packable(tree.rows) && |tree.rows| < TWO_61 - 8
    requires Plain(tree.rows) && AllPassable(Items(tree.rows)) && |Records(tree.rows)| <= MAX_SHORT_VAL_LEN
    ensures committed && ok && given == tree.rows && copy.Valid() && copy.rows == tree.rows
  {
    ghost var rows := tree.rows;
    FrontIsLog(hdr, rows);
    hide Packable, File, Front, Records, LogOf, Logged, AllPassable, StaysInside, Ended, Terminates, Put, Plain,
      RT.RowTree.Valid, LogRows;
    tree.RowsSorted();
    PutSorted(rows);
    var mf, index := NewFromMemtree(hdr, tree);
    var offset := PointersAt(mf.buf, hdr, rows);
    committed := VerifyRecords(mf.buf, offset, hdr, rows);
    ok, given, copy := ReplayFront(mf.buf[..offset], hdr, rows);
  }
}
