/** What a session on a database keeps in its files, as values. */
module Session {
  import opened Active
  import opened Bytes
  import opened Format
  import opened Reference
  import opened Rows
  import opened Words
  import opened Writer
  import C = Crc32c
  import F = Finalised

  // ---------- the active file ----------

  /** The file is a header and a log, its commits are good, and the rows are those of the log, put into base. */
  ghost predicate Logged(hdr: seq<Byte>, log: seq<Item>, buf: seq<Byte>, base: seq<Row>, rows: seq<Row>)
  {
    && |hdr| == HDR_SIZE && AllWritable(log) && AllSealed(hdr, log)
    && buf == hdr + LogBytes(log, |log|) && rows == Put(base, LogRows(log, |log|))
  }

  /** The log begins with what is kept, which ends at offset. */
  ghost predicate Saved(hdr: seq<Byte>, log: seq<Item>, kept: seq<Item>, offset: nat)
    requires AllWritable(log)
  {
    kept <= log && AllWritable(kept) && offset == |hdr| + |LogBytes(kept, |kept|)|
  }

  lemma NewLog(hdr: seq<Byte>, base: seq<Row>)
    requires |hdr| == HDR_SIZE
    ensures Logged(hdr, [], hdr, base, base) && Saved(hdr, [], [], HDR_SIZE)
  {
  }

  lemma NoCommit(data: seq<Byte>, item: Item)
    requires !item.Commit?
    ensures Sealed(data, item)
  {
  }

  lemma SealedStays(hdr: seq<Byte>, log: seq<Item>, item: Item)
    requires AllWritable(log) && Writable(item) && AllSealed(hdr, log)
    ensures AllWritable(log + [item]) && forall k :: 0 <= k < |log| ==> SealedAt(hdr, log + [item], k)
  {
    hide Writable, Sealed, Encode, ItemRows, LogBytes, LogRows;
    LogAppend(log, item);
    forall k | 0 <= k < |log| ensures SealedAt(hdr, log + [item], k) {
      assert SealedAt(hdr, log, k);
    }
  }

  /** One more item. */
  lemma Appended(hdr: seq<Byte>, log: seq<Item>, buf: seq<Byte>, base: seq<Row>, rows: seq<Row>, item: Item)
    requires Logged(hdr, log, buf, base, rows) && Writable(item) && Sealed(buf, item)
    ensures Logged(hdr, log + [item], buf + Encode(item), base, Put(rows, ItemRows(item)))
  {
    hide Writable, Sealed, Encode, ItemRows, Put, LogBytes, LogRows;
    LogAppend(log, item);
    PutConcat(base, LogRows(log, |log|), ItemRows(item));
    SealedStays(hdr, log, item);
  }

  lemma SavedStays(hdr: seq<Byte>, log: seq<Item>, item: Item, kept: seq<Item>, offset: nat)
    requires AllWritable(log) && Writable(item) && Saved(hdr, log, kept, offset)
    ensures AllWritable(log + [item]) && Saved(hdr, log + [item], kept, offset)
  {
  }

  /** Everything is saved. */
  lemma AllSaved(hdr: seq<Byte>, log: seq<Item>, buf: seq<Byte>, base: seq<Row>, rows: seq<Row>)
    requires Logged(hdr, log, buf, base, rows)
    ensures AllWritable(log) && Saved(hdr, log, log, |buf|)
  {
  }

  lemma KeptSealed(hdr: seq<Byte>, log: seq<Item>, kept: seq<Item>)
    requires AllWritable(log) && AllWritable(kept) && AllSealed(hdr, log) && kept <= log
    ensures AllSealed(hdr, kept)
  {
    hide Writable, Sealed, LogBytes;
    forall k | 0 <= k < |kept| ensures SealedAt(hdr, kept, k) {
      LogPrefix(log, kept, k);
      assert SealedAt(hdr, log, k);
    }
  }

  /** Cutting the file at the saved offset leaves the log that was kept. */
  lemma Cut(hdr: seq<Byte>, log: seq<Item>, buf: seq<Byte>, base: seq<Row>, rows: seq<Row>, kept: seq<Item>,
            offset: nat)
    requires Logged(hdr, log, buf, base, rows) && Saved(hdr, log, kept, offset)
    ensures HDR_SIZE <= offset <= |buf|
    ensures Logged(hdr, kept, buf[..offset], [], Put([], LogRows(kept, |kept|))) && Saved(hdr, kept, kept, offset)
  {
    hide Writable, SealedAt, Encode, Put, LogRows;
    var n := |kept|;
    var rest := LogSplit(log, n, |log|);
    LogPrefix(log, kept, n);
    KeptSealed(hdr, log, kept);
    hide LogBytes;
    assert hdr + LogBytes(log, n) + rest == buf;
    assert buf[..offset] == hdr + LogBytes(log, n);
  }

  /** Replaying a good log that can be passed gives its rows. */
  lemma Replayed(hdr: seq<Byte>, log: seq<Item>, buf: seq<Byte>, rows: seq<Row>)
    requires Logged(hdr, log, buf, [], rows) && AllPassable(log)
    ensures StaysInside(hdr, log) && Good(hdr, log, |log|) == |log| && Terminates(hdr, log)
    ensures forall ok, rows', given :: Ended(hdr, log, ok, [], rows', given) ==> ok && rows' == rows
  {
    hide Writable, Encode, Put, LogRows, Passable;
    forall k | 0 <= k < |log| ensures Passed(hdr, log, k) {
      assert SealedAt(hdr, log, k) && Passable(log[k]);
    }
    GoodIff(hdr, log, |log|);
    forall k | 0 <= k < |log| ensures Inside(hdr, log, k) {
      assert SealedAt(hdr, log, k) && Passable(log[k]);
      InsideOf(hdr, log, k);
    }
  }

  lemma InsideOf(hdr: seq<Byte>, log: seq<Item>, k: nat)
    requires AllWritable(log) && k < |log| && SealedAt(hdr, log, k) && Passable(log[k])
    ensures Inside(hdr, log, k)
  {
    assert Writable(log[k]);
  }

  /** Replaying the log of a session, whose commits are good, ends exactly when it can be passed. */
  lemma ReplayEnds(hdr: seq<Byte>, log: seq<Item>, buf: seq<Byte>, base: seq<Row>, rows: seq<Row>)
    requires Logged(hdr, log, buf, base, rows) && forall k :: 0 <= k < |log| ==> !log[k].LongCommit?
    ensures Terminates(hdr, log) <==> AllPassable(log)
  {
    hide Writable, Passable, Terminates;
    TerminatesIff(hdr, log);
    hide SealedAt;
  }

  lemma Filed(hdr: seq<Byte>, log: seq<Item>, buf: seq<Byte>, base: seq<Row>, rows: seq<Row>)
    requires Logged(hdr, log, buf, base, rows)
    ensures |hdr| == HDR_SIZE && AllWritable(log) && buf == hdr + LogBytes(log, |log|)
  {
  }

  lemma PassableMore(log: seq<Item>, item: Item)
    ensures AllPassable(log + [item]) <==> AllPassable(log) && Passable(item)
  {
    assert forall i :: 0 <= i < |log| ==> (log + [item])[i] == log[i];
    if AllPassable(log + [item]) {
      assert (log + [item])[|log|] == item;
      forall i | 0 <= i < |log| ensures Passable(log[i]) {
        assert Passable((log + [item])[i]);
      }
    }
  }

  lemma PutNone(rows: seq<Row>)
    ensures Put(rows, []) == rows
  {
  }

  lemma PutOne(rows: seq<Row>, row: Row)
    ensures Put(rows, [row]) == Upsert(rows, row)
  {
    assert [row][..0] == [];
  }

  // ---------- commits ----------

  /** The commit that is written after data. */
  ghost function CommitOf(data: seq<Byte>): Item
    requires |data| < TWO_64
  {
    if |data| > MAX_SHORT_VAL_LEN then LongCommit(|data|, LongCommitCrc(data, LONG_COMMIT, |data|))
    else Item.Commit(|data|, CommitCrc(data, CommitWord(COMMIT, |data|)))
  }

  /** A commit record over the data at the end of the file is good. */
  lemma Sealing(buf: seq<Byte>, data: seq<Byte>)
    requires |data| < TWO_64 && |data| <= |buf| && buf[|buf| - |data|..] == data
    ensures Writable(CommitOf(data)) && Sealed(buf, CommitOf(data))
    ensures Encode(CommitOf(data)) == CommitFor(data, false) && ItemRows(CommitOf(data)) == []
    ensures Passable(CommitOf(data)) <==> |data| <= MAX_SHORT_VAL_LEN
  {
  }

  /** The commit that is written when no CRC is running. */
  ghost function StaleItem(stale: C.Word32): Item
  {
    Item.Commit(0, C.Crc(stale, Le64(CommitWord(COMMIT, 0))) as nat)
  }

  /** A commit over nothing. */
  lemma SealedNothing(buf: seq<Byte>, crc: nat)
    ensures Sealed(buf, Item.Commit(0, crc)) <==> crc == CommitCrc([], CommitWord(COMMIT, 0))
  {
    hide CommitCrc, CommitWord;
    assert buf[|buf|..] == [];
  }

  lemma CrcNothing(w: Word)
    ensures CommitCrc([], w) == C.Crc(0, Le64(w)) as nat
  {
    hide C.Crc, Le64;
    C.CrcOfNothing(0);
  }

  /** It is good if and only if the CRC that was left is zero. */
  lemma StaleSealed(buf: seq<Byte>, stale: C.Word32)
    ensures Sealed(buf, StaleItem(stale)) <==> stale == 0
  {
    hide C.Crc, Le64, CommitCrc, Sealed;
    var w := CommitWord(COMMIT, 0);
    SealedNothing(buf, C.Crc(stale, Le64(w)) as nat);
    CrcNothing(w);
    if C.Crc(stale, Le64(w)) as nat == C.Crc(0, Le64(w)) as nat {
      C.NatTells(C.Crc(stale, Le64(w)), C.Crc(0, Le64(w)));
      C.CrcInjective(stale, 0, Le64(w));
    }
  }

  lemma StaleFits(stale: C.Word32)
    ensures Writable(StaleItem(stale)) && Encode(StaleItem(stale)) == StaleCommit(stale, COMMIT)
    ensures ItemRows(StaleItem(stale)) == [] && Passable(StaleItem(stale))
  {
    hide C.Crc, Le64, EncodeCommit;
  }

  /** Eight bytes, all of them zero but for the last one. */
  function Eight(last: Byte): (v: seq<Byte>)
    ensures |v| == 8
  {
    Zeros(7) + [last]
  }

  /** Their record ends in that byte. */
  lemma RecordOfEight(key: Key, last: Byte) returns (front: seq<Byte>)
    requires Fits(key)
    ensures front == EncodeKey(key) + Be64(VALUE * TWO_56 + 8 * TWO_32) + Be64(0) + Zeros(7)
    ensures EncodeKey(key) + EncodeVal(Eight(last)) == front + [last]
  {
    hide EncodeKey, Be64;
    front := EncodeKey(key) + Be64(VALUE * TWO_56 + 8 * TWO_32) + Be64(0) + Zeros(7);
    assert Padded(Eight(last)) == Zeros(7) + [last];
  }

  /** After a commit over a key and one of two values, the next commit, if no CRC is begun, is not good. */
  lemma StaleBad(key: Key, buf: seq<Byte>)
    requires Fits(key)
    ensures exists last: Byte ::
      last <= 1 && !Sealed(buf, StaleItem(C.Crc(0, EncodeKey(key) + EncodeVal(Eight(last)))))
  {
    hide C.Crc, Sealed, EncodeKey, EncodeVal, StaleItem;
    var front := RecordOfEight(key, 0);
    var front' := RecordOfEight(key, 1);
    var c, d := C.Crc(0, front + [0]), C.Crc(0, front + [1]);
    if c == 0 && d == 0 {
      C.LastByteTells(0, front, 0, 1);
      assert false;
    }
    StaleSealed(buf, c);
    StaleSealed(buf, d);
    var last: Byte := if c != 0 then 0 else 1;
    assert last <= 1 && !Sealed(buf, StaleItem(C.Crc(0, EncodeKey(key) + EncodeVal(Eight(last)))));
  }

  // ---------- finalised files ----------

  /** A finalised file: a header and a log that ends with a commit, the only one that may be bad. */
  ghost predicate Shelved(f: F.FileData)
  {
    && |f.hdr| == HDR_SIZE && AllWritable(f.log) && f.log != [] && f.buf == f.hdr + LogBytes(f.log, |f.log|)
    && (forall k :: 0 <= k < |f.log| - 1 ==> SealedAt(f.hdr, f.log, k))
    && Ends(f.log[|f.log| - 1], |f.hdr + LogBytes(f.log, |f.log| - 1)|)
  }

  /** A commit that reaches back into the file. */
  ghost predicate Ends(item: Item, size: nat)
  {
    item.LongCommit? || (item.Commit? && item.length <= size)
  }

  lemma ShelvedByCommit(hdr: seq<Byte>, log: seq<Item>, buf: seq<Byte>, base: seq<Row>, rows: seq<Row>, item: Item,
                        index: nat)
    requires Logged(hdr, log, buf, base, rows) && Writable(item) && Ends(item, |buf|)
    ensures Shelved(F.FileData(index, buf + Encode(item), hdr, log + [item]))
    ensures LogRows(log + [item], |log| + 1) == LogRows(log, |log|)
  {
    hide Writable, Encode, LogBytes, LogRows, SealedAt, Put;
    LogAppend(log, item);
    SealedStays(hdr, log, item);
  }

  /** A finalised file that can be passed is loaded whole, whether its last commit is good or not. */
  lemma ShelvedLoads(f: F.FileData)
    requires Shelved(f) && AllPassable(f.log)
    ensures StaysInside(f.hdr, f.log) && Terminates(f.hdr, f.log)
    ensures LogRows(f.log, Good(f.hdr, f.log, |f.log|)) == LogRows(f.log, |f.log|)
  {
    hide Writable, LogBytes, Passable;
    var n := |f.log| - 1;
    forall k | 0 <= k < n ensures Passed(f.hdr, f.log, k) && Inside(f.hdr, f.log, k) {
      assert Passable(f.log[k]);
      InsideOf(f.hdr, f.log, k);
    }
    GoodIff(f.hdr, f.log, n);
    LastInside(f);
  }

  lemma LastInside(f: F.FileData)
    requires Shelved(f) && AllPassable(f.log)
    ensures var n := |f.log| - 1; Inside(f.hdr, f.log, n) && Passable(f.log[n]) && ItemRows(f.log[n]) == []
  {
    hide LogBytes;
  }

  /** Finalised files with rising indexes below the next one. */
  ghost predicate Shelf(files: seq<F.FileData>, next: nat)
  {
    && (forall i :: 0 <= i < |files| ==> Shelved(files[i]) && files[i].index < next)
    && forall i, j :: 0 <= i < j < |files| ==> files[i].index < files[j].index
  }

  lemma ShelfMore(files: seq<F.FileData>, next: nat, f: F.FileData)
    requires Shelf(files, next) && Shelved(f) && f.index == next
    ensures Shelf(files + [f], next + 1)
  {
    hide Shelved;
  }

  ghost predicate ShelfReads(files: seq<F.FileData>)
  {
    forall i :: 0 <= i < |files| ==> AllPassable(files[i].log)
  }

  lemma ShelfReadsMore(files: seq<F.FileData>, f: F.FileData)
    ensures ShelfReads(files + [f]) <==> ShelfReads(files) && AllPassable(f.log)
  {
    hide AllPassable;
    assert forall i :: 0 <= i < |files| ==> (files + [f])[i] == files[i];
    if ShelfReads(files + [f]) {
      assert (files + [f])[|files|] == f;
      forall i | 0 <= i < |files| ensures AllPassable(files[i].log) {
        assert AllPassable((files + [f])[i].log);
      }
    }
  }

  /** What the finalised files say, newer ones before older ones. */
  ghost function OlderMap(files: seq<F.FileData>): map<Key, Row>
  {
    if files == [] then map[]
    else
      var f := files[|files| - 1];
      OlderMap(files[..|files| - 1]) + ToMap(LogRows(f.log, |f.log|))
  }

  /** The rows of a tree into which the first n files were loaded. */
  ghost function OlderRows(files: seq<F.FileData>, n: nat): seq<Row>
    requires n <= |files|
  {
    if n == 0 then [] else Put(OlderRows(files, n - 1), LogRows(files[n - 1].log, |files[n - 1].log|))
  }

  /** They say the same. */
  lemma {:induction false} OlderSame(files: seq<F.FileData>, n: nat)
    requires n <= |files|
    ensures SortedRows(OlderRows(files, n)) && ToMap(OlderRows(files, n)) == OlderMap(files[..n])
  {
    hide ToMap, SortedRows, Put, LogRows;
    if n == 0 {
      NoRows();
    } else {
      OlderSame(files, n - 1);
      PutIsReplay(OlderRows(files, n - 1), LogRows(files[n - 1].log, |files[n - 1].log|));
      assert files[..n][..n - 1] == files[..n - 1];
    }
  }

  /** They are what start-up loads when it orders the files by index. */
  lemma {:induction false} OlderLoaded(files: seq<F.File>, n: nat)
    requires n <= |files| && forall i :: 0 <= i < n ==> Shelved(files[i]) && AllPassable(files[i].log)
    ensures OlderRows(files, n) == F.Replay([], files, n)
  {
    hide F.WellFormed, F.Loads, Put, LogRows, Shelved, AllPassable;
    if n > 0 {
      OlderLoaded(files, n - 1);
      FileLoads(files[n - 1]);
    }
  }

  lemma FileLoads(f: F.File)
    requires Shelved(f) && AllPassable(f.log)
    ensures F.Loads(f) == LogRows(f.log, |f.log|)
  {
    ShelvedLoads(f);
  }

  lemma NoRows()
    ensures ToMap([]) == map[] && SortedRows([])
  {
  }

  // ---------- what the database says ----------

  /** Rows over older rows. */
  ghost function View(fin: seq<Row>, rows: seq<Row>): map<Key, Row>
  {
    ToMap(fin) + ToMap(rows)
  }

  /** What the finalised files and a log say. */
  ghost function SavedMap(files: seq<F.FileData>, log: seq<Item>): map<Key, Row>
  {
    OlderMap(files) + ToMap(LogRows(log, |log|))
  }

  /**
   The rows of the finalised tree, and of the active tree when its file was begun, are those of the
   finalised files.
   */
  ghost predicate Covers(files: seq<F.FileData>, fin: seq<Row>, base: seq<Row>)
  {
    SortedRows(base) && View(fin, base) == OlderMap(files)
  }

  lemma MapThree<K, V>(a: map<K, V>, b: map<K, V>, c: map<K, V>)
    ensures a + (b + c) == (a + b) + c
  {
  }

  lemma MapUpdate<K, V>(a: map<K, V>, b: map<K, V>, k: K, v: V)
    ensures a + b[k := v] == (a + b)[k := v]
  {
  }

  lemma MapNone<K, V>(a: map<K, V>)
    ensures a + map[] == a && map[] + a == a
  {
  }

  lemma ViewSaved(files: seq<F.FileData>, fin: seq<Row>, base: seq<Row>, log: seq<Item>)
    requires Covers(files, fin, base)
    ensures SortedRows(Put(base, LogRows(log, |log|)))
    ensures View(fin, Put(base, LogRows(log, |log|))) == SavedMap(files, log)
  {
    hide ToMap, SortedRows, Put, LogRows;
    PutIsReplay(base, LogRows(log, |log|));
    MapThree(ToMap(fin), ToMap(base), ToMap(LogRows(log, |log|)));
  }

  lemma ViewPut(fin: seq<Row>, rows: seq<Row>, row: Row)
    requires SortedRows(rows)
    ensures View(fin, Upsert(rows, row)) == View(fin, rows)[row.key := row]
  {
    hide ToMap, SortedRows, Upsert;
    UpsertMap(rows, row);
    MapUpdate(ToMap(fin), ToMap(rows), row.key, row);
  }

  /** Finalising the active file moves what it says to the finalised ones. */
  lemma CoversClosed(files: seq<F.FileData>, fin: seq<Row>, base: seq<Row>, log: seq<Item>, f: F.FileData)
    requires Covers(files, fin, base) && LogRows(f.log, |f.log|) == LogRows(log, |log|)
    ensures Covers(files + [f], fin, Put(base, LogRows(log, |log|)))
    ensures OlderMap(files + [f]) == View(fin, Put(base, LogRows(log, |log|)))
  {
    hide ToMap, SortedRows, Put, LogRows, View;
    ViewSaved(files, fin, base, log);
    assert (files + [f])[..|files|] == files;
  }

  lemma SavedNone(files: seq<F.FileData>)
    ensures SavedMap(files, []) == OlderMap(files)
  {
    hide OlderMap;
    MapNone(OlderMap(files));
  }

  /** After loading, the finalised tree has it all. */
  lemma CoversLoaded(files: seq<F.FileData>, fin: seq<Row>)
    requires fin == OlderRows(files, |files|)
    ensures Covers(files, fin, [])
  {
    hide OlderMap, OlderRows;
    NoRows();
    MapNone(ToMap(fin));
    OlderSame(files, |files|);
    assert files[..|files|] == files;
  }

  // ---------- the book of a session ----------

  /**
   What the files of a session hold: the finalised ones; the header and the items of the active
   one, those of them that are committed, and what the active tree held before all of them.
   */
  datatype Book = Book(shelf: seq<F.FileData>, hdr: seq<Byte>, base: seq<Row>, log: seq<Item>, kept: seq<Item>)

  /** The active file and the trees agree with the book. */
  ghost predicate Keeps(b: Book, buf: seq<Byte>, offset: nat, fin: seq<Row>, rows: seq<Row>)
  {
    && Logged(b.hdr, b.log, buf, b.base, rows) && Saved(b.hdr, b.log, b.kept, offset)
    && Covers(b.shelf, fin, b.base)
  }

  /** What that looks like from outside. */
  ghost function StateOf(b: Book, fin: seq<Row>, rows: seq<Row>, size: nat, offset: nat, pending: nat,
                         dirty: bool): Model
  {
    Model(View(fin, rows), SavedMap(b.shelf, b.kept), size, offset, pending, dirty,
          ShelfReads(b.shelf) && AllPassable(b.log), ShelfReads(b.shelf) && AllPassable(b.kept))
  }

  lemma Started(hdr: seq<Byte>)
    requires |hdr| == HDR_SIZE
    ensures Keeps(Book([], hdr, [], [], []), hdr, HDR_SIZE, [], [])
    ensures StateOf(Book([], hdr, [], [], []), [], [], HDR_SIZE, HDR_SIZE, 0, false) == NewDatabase()
  {
    NewLog(hdr, []);
    CoversLoaded([], []);
    NoRows();
    SavedNone([]);
    MapNone<Key, Row>(map[]);
  }

  ghost function WithItem(b: Book, item: Item): Book
  {
    b.(log := b.log + [item])
  }

  /** An item with one row is written, and the row put into the tree. */
  lemma RowNoted(b: Book, buf: seq<Byte>, offset: nat, fin: seq<Row>, rows: seq<Row>, item: Item, row: Row)
    requires Keeps(b, buf, offset, fin, rows)
    requires Writable(item) && ItemRows(item) == [row] && !item.Commit?
    ensures Keeps(WithItem(b, item), buf + Encode(item), offset, fin, Upsert(rows, row))
  {
    hide Writable, Encode, LogRows, LogBytes, Upsert, Put, SortedRows, ToMap, Sealed, OlderMap, SealedAt, ItemRows,
      View;
    NoCommit(buf, item);
    Appended(b.hdr, b.log, buf, b.base, rows, item);
    SavedStays(b.hdr, b.log, item, b.kept, offset);
    PutOne(rows, row);
  }

  lemma RowState(b: Book, buf: seq<Byte>, offset: nat, fin: seq<Row>, rows: seq<Row>, item: Item, row: Row,
                 pending: nat, pending': nat, dirty: bool, len: nat)
    requires Keeps(b, buf, offset, fin, rows) && ItemRows(item) == [row]
    ensures StateOf(WithItem(b, item), fin, Upsert(rows, row), |buf| + len, offset, pending', true)
         == WithRow(StateOf(b, fin, rows, |buf|, offset, pending, dirty), row, len, pending')
  {
    hide View, Upsert, SortedRows, LogRows, ShelfReads, AllPassable, OlderMap, ToMap, Put, Covers, Saved, AllSealed;
    ViewSaved(b.shelf, fin, b.base, b.log);
    ViewPut(fin, rows, row);
    PassableMore(b.log, item);
    PassableRow(item, row);
  }

  lemma PassableRow(item: Item, row: Row)
    requires ItemRows(item) == [row]
    ensures Passable(item) <==> (row.deleted ==> |row.key| <= MAX_SHORT_KEY_LEN)
  {
  }

  /** A good commit is written, and the good offset stays. */
  lemma Closes(b: Book, buf: seq<Byte>, offset: nat, fin: seq<Row>, rows: seq<Row>, item: Item)
    requires Keeps(b, buf, offset, fin, rows) && Writable(item) && ItemRows(item) == [] && Sealed(buf, item)
    ensures Keeps(WithItem(b, item), buf + Encode(item), offset, fin, rows)
  {
    hide Writable, Encode, LogRows, LogBytes, Put, SortedRows, Sealed, OlderMap, SealedAt, ItemRows, View;
    Appended(b.hdr, b.log, buf, b.base, rows, item);
    SavedStays(b.hdr, b.log, item, b.kept, offset);
    PutNone(rows);
  }

  lemma ClosedState(b: Book, fin: seq<Row>, rows: seq<Row>, size: nat, offset: nat, item: Item, pending: nat,
                    dirty: bool)
    requires Passable(item) <==> pending <= MAX_SHORT_VAL_LEN
    ensures var size' := size + if pending <= MAX_SHORT_VAL_LEN then SHORT_COMMIT_SIZE else LONG_COMMIT_SIZE;
      StateOf(WithItem(b, item), fin, rows, size', offset, 0, false)
      == Closed(StateOf(b, fin, rows, size, offset, pending, dirty))
  {
    hide View, ShelfReads, OlderMap, AllPassable, Passable, LogRows;
    PassableMore(b.log, item);
  }

  /** A good commit is written, and the good offset moves behind it. */
  lemma Committed(b: Book, buf: seq<Byte>, offset: nat, fin: seq<Row>, rows: seq<Row>, item: Item)
    requires Keeps(b, buf, offset, fin, rows) && Writable(item) && ItemRows(item) == [] && Sealed(buf, item)
    ensures var (b', buf') := (WithItem(b, item), buf + Encode(item));
      Keeps(b'.(kept := b'.log), buf', |buf'|, fin, rows)
  {
    hide Writable, Encode, LogRows, LogBytes, Put, SortedRows, Sealed, OlderMap, SealedAt, ItemRows, View;
    Closes(b, buf, offset, fin, rows, item);
    AllSaved(b.hdr, b.log + [item], buf + Encode(item), b.base, rows);
  }

  lemma CommitState(b: Book, buf: seq<Byte>, offset: nat, fin: seq<Row>, rows: seq<Row>, item: Item, pending: nat,
                    dirty: bool)
    requires Keeps(b, buf, offset, fin, rows) && ItemRows(item) == [] && (dirty || pending > 0)
    requires Passable(item) <==> pending <= MAX_SHORT_VAL_LEN
    ensures var size := |buf| + if pending <= MAX_SHORT_VAL_LEN then SHORT_COMMIT_SIZE else LONG_COMMIT_SIZE;
      var b' := WithItem(b, item);
      StateOf(b'.(kept := b'.log), fin, rows, size, size, 0, false)
      == Step(StateOf(b, fin, rows, |buf|, offset, pending, dirty), CommitOp)
  {
    hide View, Covers, Put, ShelfReads, OlderMap, AllPassable, Passable, LogBytes, LogRows, ItemRows, Saved, AllSealed;
    ViewSaved(b.shelf, fin, b.base, b.log);
    RowsMore(b.log, item);
    ClosedState(b, fin, rows, |buf|, offset, item, pending, dirty);
  }

  lemma RowsMore(log: seq<Item>, item: Item)
    requires ItemRows(item) == []
    ensures LogRows(log + [item], |log + [item]|) == LogRows(log, |log|)
  {
    RowsOfPrefix(log + [item], log, |log|);
    assert LogRows(log, |log|) + [] == LogRows(log, |log|);
  }

  lemma {:induction false} RowsOfPrefix(a: seq<Item>, b: seq<Item>, n: nat)
    requires n <= |a| && n <= |b| && forall i :: 0 <= i < n ==> a[i] == b[i]
    ensures LogRows(a, n) == LogRows(b, n)
  {
    if n > 0 {
      RowsOfPrefix(a, b, n - 1);
    }
  }

  /** There is nothing to commit. */
  lemma CleanState(b: Book, fin: seq<Row>, rows: seq<Row>, size: nat, offset: nat)
    ensures var m := StateOf(b, fin, rows, size, offset, 0, false); Step(m, CommitOp) == m && Step(m, ReopenOp) == m
  {
  }

  /** The active file is closed by a commit, and the next one has only its header. */
  ghost function RolledBook(b: Book, f: F.FileData, hdr: seq<Byte>, rows: seq<Row>): Book
  {
    Book(b.shelf + [f], hdr, rows, [], [])
  }

  lemma RolledOver(b: Book, buf: seq<Byte>, offset: nat, fin: seq<Row>, rows: seq<Row>, item: Item, index: nat,
                   hdr: seq<Byte>)
    requires Keeps(b, buf, offset, fin, rows) && Shelf(b.shelf, index) && |hdr| == HDR_SIZE
    requires Writable(item) && Ends(item, |buf|)
    ensures var f := F.FileData(index, buf + Encode(item), b.hdr, b.log + [item]);
      Keeps(RolledBook(b, f, hdr, rows), hdr, HDR_SIZE, fin, rows) && Shelf(b.shelf + [f], index + 1)
  {
    hide View, Put, LogRows, OlderMap, LogBytes, AllSealed, Encode, Writable, Shelf, SortedRows, Ends, Shelved;
    var f := F.FileData(index, buf + Encode(item), b.hdr, b.log + [item]);
    ShelvedByCommit(b.hdr, b.log, buf, b.base, rows, item, index);
    ShelfMore(b.shelf, index, f);
    CoversClosed(b.shelf, fin, b.base, b.log, f);
    NewLog(hdr, rows);
  }

  lemma RolledState(b: Book, buf: seq<Byte>, offset: nat, fin: seq<Row>, rows: seq<Row>, f: F.FileData, hdr: seq<Byte>,
                    pending: nat, dirty: bool, item: Item)
    requires Keeps(b, buf, offset, fin, rows) && f.log == b.log + [item] && ItemRows(item) == []
    requires Passable(item) <==> pending <= MAX_SHORT_VAL_LEN
    ensures StateOf(RolledBook(b, f, hdr, rows), fin, rows, HDR_SIZE, HDR_SIZE, 0, dirty)
         == Rolled(StateOf(b, fin, rows, |buf|, offset, pending, dirty))
  {
    hide View, Covers, Put, LogRows, ShelfReads, OlderMap, AllPassable, Passable, LogBytes, ItemRows, Saved, AllSealed;
    RowsMore(b.log, item);
    CoversClosed(b.shelf, fin, b.base, b.log, f);
    SavedNone(b.shelf + [f]);
    PassableMore(b.log, item);
    ShelfReadsMore(b.shelf, f);
    NonePassable();
  }

  lemma NonePassable()
    ensures AllPassable([])
  {
  }

  /** The active file is cut at the good offset, and everything is loaded again. */
  ghost function CutBook(b: Book): Book
  {
    b.(base := [], log := b.kept)
  }

  lemma Reloaded(b: Book, buf: seq<Byte>, offset: nat, fin: seq<Row>, rows: seq<Row>)
    requires Keeps(b, buf, offset, fin, rows)
    ensures HDR_SIZE <= offset <= |buf|
    ensures Logged(b.hdr, b.kept, buf[..offset], [], Put([], LogRows(b.kept, |b.kept|)))
    ensures Keeps(CutBook(b), buf[..offset], offset, OlderRows(b.shelf, |b.shelf|), Put([], LogRows(b.kept, |b.kept|)))
  {
    hide View, Put, LogRows, OlderMap, OlderRows, LogBytes, SealedAt, Writable, SortedRows, Covers;
    Cut(b.hdr, b.log, buf, b.base, rows, b.kept, offset);
    CoversLoaded(b.shelf, OlderRows(b.shelf, |b.shelf|));
  }

  lemma AbortState(b: Book, fin: seq<Row>, rows: seq<Row>, size: nat, offset: nat, pending: nat, dirty: bool)
    ensures var fin', rows' := OlderRows(b.shelf, |b.shelf|), Put([], LogRows(b.kept, |b.kept|));
      StateOf(CutBook(b), fin', rows', offset, offset, 0, false)
      == Step(StateOf(b, fin, rows, size, offset, pending, dirty), AbortOp)
  {
    hide View, Covers, Put, LogRows, ShelfReads, OlderMap, AllPassable, OlderRows;
    CoversLoaded(b.shelf, OlderRows(b.shelf, |b.shelf|));
    ViewSaved(b.shelf, OlderRows(b.shelf, |b.shelf|), [], b.kept);
  }

  /** Everything is loaded again, from files that have not changed. */
  lemma LoadedAgain(b: Book, buf: seq<Byte>, offset: nat, fin: seq<Row>, rows: seq<Row>)
    requires Keeps(b, buf, offset, fin, rows)
    ensures var fin', rows' := OlderRows(b.shelf, |b.shelf|), Put([], LogRows(b.log, |b.log|));
      && Logged(b.hdr, b.log, buf, [], rows') && Keeps(b.(base := []), buf, offset, fin', rows')
      && View(fin', rows') == View(fin, rows)
  {
    hide View, Put, LogRows, OlderMap, OlderRows, LogBytes, AllSealed, Covers, Saved;
    CoversLoaded(b.shelf, OlderRows(b.shelf, |b.shelf|));
    ViewSaved(b.shelf, OlderRows(b.shelf, |b.shelf|), [], b.log);
    ViewSaved(b.shelf, fin, b.base, b.log);
  }

  lemma NoneThere(rows: seq<Row>)
    ensures ToMap(rows) == map[] ==> rows == []
  {
    assert rows != [] ==> rows[|rows| - 1].key in ToMap(rows);
  }

  lemma LoadedState(b: Book, buf: seq<Byte>, offset: nat, fin: seq<Row>, rows: seq<Row>, pending: nat, dirty: bool)
    requires Keeps(b, buf, offset, fin, rows)
    ensures var fin', rows' := OlderRows(b.shelf, |b.shelf|), Put([], LogRows(b.log, |b.log|));
      StateOf(b.(base := []), fin', rows', |buf|, offset, 0, dirty)
      == StateOf(b, fin, rows, |buf|, offset, pending, dirty).(pending := 0)
  {
    hide View, Keeps, Put, LogRows, OlderMap, OlderRows, ShelfReads, AllPassable;
    LoadedAgain(b, buf, offset, fin, rows);
  }

  /** Without finalised files the active file alone has what the active tree has. */
  lemma ActiveAlone(b: Book, buf: seq<Byte>, offset: nat, fin: seq<Row>, rows: seq<Row>)
    requires Keeps(b, buf, offset, fin, rows) && b.shelf == []
    ensures Logged(b.hdr, b.log, buf, [], rows)
  {
    hide Saved, AllSealed, Put, ToMap;
    NoneThere(b.base);
  }
}
