/**
 One session on a database: an active file that is appended to and rolled over when it has grown,
 the files finalised so, the memtrees of both, and the offset up to which the active file was
 committed.
 */
module Db {
  import opened Active
  import opened Bytes
  import opened Format
  import opened Reference
  import opened Rows
  import opened Session
  import opened Words
  import opened Writer
  import C = Crc32c
  import F = Finalised
  import MF = MFile
  import RT = RowTree

  // ---------- appending to the active file ----------

  /** Begins the CRC, unless it is running. */
  method StartCrc(mf: MF.MFile)
    requires AtEnd(mf)
    modifies mf
    ensures AtEnd(mf) && mf.computeCrc && mf.buf == old(mf.buf) && mf.crcLen == old(mf.crcLen)
    ensures !old(mf.computeCrc) ==> mf.crcBegin == |mf.buf|
  {
    if !mf.computeCrc {
      mf.CrcStart();
    }
  }

  lemma KeyValItem(key: Key, val: seq<Byte>)
    requires Fits(key) && Fits(val)
    ensures Writable(KeyVal(key, val)) && Encode(KeyVal(key, val)) == EncodeKey(key) + EncodeVal(val)
    ensures |Encode(KeyVal(key, val))| == KeyLen(key) + ValLen(val)
    ensures ItemRows(KeyVal(key, val)) == [Row(key, val, false)]
  {
  }

  lemma DeleteItem(key: Key)
    requires Fits(key)
    ensures Writable(Delete(key)) && Encode(Delete(key)) == EncodeDelete(key) && |EncodeDelete(key)| == KeyLen(key)
    ensures ItemRows(Delete(key)) == [Row(key, [], true)]
  {
  }

  /** Begins the CRC and writes a deletion. */
  method AppendDelete(mf: MF.MFile, key: Key)
    requires AtEnd(mf) && Fits(key)
    modifies mf
    ensures AtEnd(mf) && mf.computeCrc && mf.buf == old(mf.buf) + EncodeDelete(key) && mf.crcLen == KeyLen(key)
    ensures Data(mf) == EncodeDelete(key)
  {
    hide EncodeDelete;
    mf.CrcStart();
    WriteDelete(mf, key);
  }

  /** Writes a key and a value; the CRC is begun, unless it is running. */
  method AppendKeyVal(mf: MF.MFile, key: Key, val: seq<Byte>)
    requires AtEnd(mf) && Fits(key) && Fits(val)
    modifies mf
    ensures AtEnd(mf) && mf.computeCrc && mf.buf == old(mf.buf) + (EncodeKey(key) + EncodeVal(val))
    ensures mf.crcLen == old(mf.crcLen) + KeyLen(key) + ValLen(val)
    ensures !old(mf.computeCrc) ==> Data(mf) == EncodeKey(key) + EncodeVal(val)
  {
    hide EncodeKey, EncodeVal;
    StartCrc(mf);
    WriteKeyVal(mf, key, val);
  }

  lemma CommitLength(data: seq<Byte>)
    requires |data| < TWO_64
    ensures Writable(CommitOf(data))
    ensures |Encode(CommitOf(data))| == if |data| <= MAX_SHORT_VAL_LEN then SHORT_COMMIT_SIZE else LONG_COMMIT_SIZE
    ensures Ends(CommitOf(data), |data|)
  {
  }

  lemma StaleLength(stale: C.Word32, size: nat)
    ensures Writable(StaleItem(stale)) && |Encode(StaleItem(stale))| == SHORT_COMMIT_SIZE
    ensures Ends(StaleItem(stale), size)
  {
    hide C.Crc, Le64;
  }

  /** The commit that is written next. */
  ghost function ClosingOf(mf: MF.MFile): Item
    requires AtEnd(mf) && mf.crcLen < TWO_64
    reads mf
  {
    if mf.computeCrc then CommitOf(Data(mf)) else StaleItem(mf.crc32)
  }

  /**
   Writes the commit that goes with the bytes since the CRC was begun.  It is good if and only if
   the CRC was running, or what the last one left is zero.
   */
  method WriteClosing(mf: MF.MFile) returns (ghost item: Item)
    requires AtEnd(mf) && mf.crcLen < TWO_64
    modifies mf
    ensures AtEnd(mf) && !mf.computeCrc && mf.crcLen == 0
    ensures Writable(item) && mf.buf == old(mf.buf) + Encode(item) && ItemRows(item) == []
    ensures item == old(ClosingOf(mf))
    ensures old(mf.computeCrc) ==> mf.crc32 == C.Crc(0, old(Data(mf)))
    ensures Ends(item, |old(mf.buf)|) && (Sealed(old(mf.buf), item) <==> old(mf.computeCrc) || old(mf.crc32) == 0)
    ensures Passable(item) <==> old(mf.crcLen) <= MAX_SHORT_VAL_LEN
    ensures |Encode(item)| == if old(mf.crcLen) <= MAX_SHORT_VAL_LEN then SHORT_COMMIT_SIZE else LONG_COMMIT_SIZE
  {
    hide Sealed, Encode, CommitFor, StaleCommit, CommitOf, StaleItem, C.Crc;
    C.CrcOfNothing(0);
    if mf.computeCrc {
      item := CommitOf(Data(mf));
      Sealing(mf.buf, Data(mf));
      CommitLength(Data(mf));
    } else {
      item := StaleItem(mf.crc32);
      StaleFits(mf.crc32);
      StaleSealed(mf.buf, mf.crc32);
      StaleLength(mf.crc32, |mf.buf|);
    }
    WriteCommit(mf, false);
  }

  /** A file that has only a header. */
  method NewActive(hdr: seq<Byte>) returns (mf: MF.MFile)
    requires |hdr| == HDR_SIZE
    ensures fresh(mf) && AtEnd(mf) && mf.buf == hdr && !mf.computeCrc && mf.crcLen == 0
  {
    mf := new MF.MFile(hdr);
    var r := mf.Seek(HDR_SIZE);
  }

  /** What a record of a key and eight bytes takes. */
  lemma RecordShort(key: Key, last: Byte)
    requires Fits(key)
    ensures |EncodeKey(key) + EncodeVal(Eight(last))| == KeyLen(key) + 24 < TWO_64
  {
    hide EncodeKey, EncodeVal;
  }

  /**
   A key and eight bytes are written to a new file and committed, and then the file is finalised:
   behind the commit there is another one, over nothing, from the CRC of the record.
   */
  method FinaliseCommitted(hdr: seq<Byte>, key: Key, last: Byte) returns (mf: MF.MFile)
    requires |hdr| == HDR_SIZE && Fits(key)
    ensures var data := EncodeKey(key) + EncodeVal(Eight(last));
      && |data| < TWO_64
      && mf.buf == hdr + data + CommitFor(data, false) + Encode(StaleItem(C.Crc(0, data)))
  {
    RecordShort(key, last);
    hide AtEnd, EncodeKey, EncodeVal, StaleItem, StaleCommit, CommitFor, Encode, C.Crc;
    ghost var data := EncodeKey(key) + EncodeVal(Eight(last));
    C.CrcOfNothing(0);
    StaleFits(C.Crc(0, data));
    mf := NewActive(hdr);
    AppendKeyVal(mf, key, Eight(last));
    WriteCommit(mf, false);
    WriteCommit(mf, false);
  }

  /** Finalises a file: its last commit is written, and it is one more on the shelf. */
  method CloseFile(mf: MF.MFile, ghost hdr: seq<Byte>, ghost index: nat, ghost offset: nat, ghost dirty: bool,
                   ghost b: Book, ghost fin: seq<Row>, ghost rows: seq<Row>)
    returns (ghost f: F.FileData, ghost item: Item)
    requires AtEnd(mf) && mf.crcLen < TWO_64 && |hdr| == HDR_SIZE
    requires Keeps(b, mf.buf, offset, fin, rows) && Shelf(b.shelf, index)
    modifies mf
    ensures f.buf == mf.buf && f.log == b.log + [item] && item == old(ClosingOf(mf))
    ensures Sealed(old(mf.buf), item) <==> old(mf.computeCrc) || old(mf.crc32) == 0
    ensures Keeps(RolledBook(b, f, hdr, rows), hdr, HDR_SIZE, fin, rows) && Shelf(b.shelf + [f], index + 1)
    ensures StateOf(RolledBook(b, f, hdr, rows), fin, rows, HDR_SIZE, HDR_SIZE, 0, dirty)
         == Rolled(StateOf(b, fin, rows, |old(mf.buf)|, offset, old(mf.crcLen), dirty))
  {
    hide Keeps, Encode, Sealed, Shelf, StateOf, Rolled, RolledBook, Writable, ClosingOf, Ends, AtEnd, C.Crc, Passable;
    ghost var buf, pending := mf.buf, mf.crcLen;
    item := WriteClosing(mf);
    f := F.FileData(index, mf.buf, b.hdr, b.log + [item]);
    RolledOver(b, buf, offset, fin, rows, item, index, hdr);
    RolledState(b, buf, offset, fin, rows, f, hdr, pending, dirty, item);
  }

  lemma NextHeader(b: Book, f: F.FileData, hdr: seq<Byte>, rows: seq<Row>)
    ensures RolledBook(b, f, hdr, rows).hdr == hdr && RolledBook(b, f, hdr, rows).shelf == b.shelf + [f]
  {
  }

  // ---------- loading files ----------

  /** Replays a good log that can be passed: every commit is accepted, and the rows are those of the log. */
  method Replay(buf: seq<Byte>, ghost hdr: seq<Byte>, ghost log: seq<Item>, ghost rows: seq<Row>)
    returns (ok: bool, tree: RT.RowTree)
    requires Logged(hdr, log, buf, [], rows) && AllPassable(log)
    ensures ok && fresh(tree) && fresh(tree.repr) && tree.Valid() && tree.rows == rows
  {
    Filed(hdr, log, buf, [], rows);
    hide Logged, RT.RowTree.Valid, AllWritable, AllPassable, StaysInside, Ended, Terminates;
    Replayed(hdr, log, buf, rows);
    tree := new RT.RowTree();
    var given;
    ok, given := RecordForeach(buf, tree, hdr, log);
  }

  /** Cuts a file. */
  method CutFile(mf: MF.MFile, offset: nat)
    requires HDR_SIZE <= offset <= |mf.buf|
    modifies mf
    ensures mf.buf == old(mf.buf)[..offset]
  {
    var r := mf.Truncate(offset);
    mf.offset := offset;
  }

  /** The files are those on the shelf. */
  ghost predicate Stored(files: seq<seq<Byte>>, shelf: seq<F.FileData>)
  {
    |files| == |shelf| && forall i :: 0 <= i < |files| ==> files[i] == shelf[i].buf
  }

  lemma StoredMore(files: seq<seq<Byte>>, shelf: seq<F.FileData>, f: F.FileData)
    requires Stored(files, shelf)
    ensures Stored(files + [f.buf], shelf + [f])
  {
  }

  lemma NoneStored(files: seq<seq<Byte>>, shelf: seq<F.FileData>)
    requires Stored(files, shelf) && files == []
    ensures OlderRows(shelf, |shelf|) == []
  {
  }

  /** Loads a finalised file; that its last commit may be bad does not matter. */
  method LoadShelved(buf: seq<Byte>, tree: RT.RowTree, ghost f: F.FileData)
    requires tree.Valid() && Shelved(f) && AllPassable(f.log) && buf == f.buf
    modifies tree.repr
    ensures tree.Valid() && fresh(tree.repr - old(tree.repr))
    ensures tree.rows == Put(old(tree.rows), LogRows(f.log, |f.log|))
  {
    hide LogBytes, LogRows, StaysInside, Put, Good, Terminates, AllPassable, SealedAt, Ends, RT.RowTree.Valid, Writable;
    ShelvedLoads(f);
    var ok, given := RecordForeach(buf, tree, f.hdr, f.log);
  }

  /** Loads the finalised files, the one with the lowest index first. */
  method LoadFiles(files: seq<seq<Byte>>, ghost shelf: seq<F.FileData>, ghost next: nat) returns (tree: RT.RowTree)
    requires Shelf(shelf, next) && Stored(files, shelf) && ShelfReads(shelf)
    ensures fresh(tree) && fresh(tree.repr) && tree.Valid() && tree.rows == OlderRows(shelf, |shelf|)
  {
    hide Put, LogRows, RT.RowTree.Valid, Shelved, AllPassable;
    tree := new RT.RowTree();
    var i := 0;
    while i < |files|
      invariant i <= |files| && tree.Valid() && fresh(tree.repr) && tree.rows == OlderRows(shelf, i)
    {
      LoadShelved(files[i], tree, shelf[i]);
      i := i + 1;
    }
  }

  /** Maps the active file anew, and loads it and the finalised files into new trees. */
  method LoadAll(buf: seq<Byte>, files: seq<seq<Byte>>, ghost b: Book, ghost next: nat)
    returns (mf: MF.MFile, tree: RT.RowTree, fmemtree: RT.RowTree)
    requires |buf| >= HDR_SIZE && AllPassable(b.log)
    requires Logged(b.hdr, b.log, buf, [], Put([], LogRows(b.log, |b.log|)))
    requires Shelf(b.shelf, next) && Stored(files, b.shelf) && ShelfReads(b.shelf)
    ensures fresh(mf) && AtEnd(mf) && !mf.computeCrc && mf.crcLen == 0 && mf.buf == buf
    ensures fresh(tree) && fresh(tree.repr) && fresh(fmemtree) && fresh(fmemtree.repr) && tree.repr !! fmemtree.repr
    ensures tree.Valid() && fmemtree.Valid() && tree in tree.repr && fmemtree in fmemtree.repr
    ensures mf !in tree.repr && mf !in fmemtree.repr
    ensures tree.rows == Put([], LogRows(b.log, |b.log|)) && fmemtree.rows == OlderRows(b.shelf, |b.shelf|)
    ensures files == [] ==> fmemtree.rows == []
  {
    hide Logged, RT.RowTree.Valid, AllWritable, AllPassable, Shelf, Stored, ShelfReads, Put, LogRows, OlderRows;
    mf := new MF.MFile(buf);
    var ok;
    ok, tree := Replay(buf, b.hdr, b.log, Put([], LogRows(b.log, |b.log|)));
    fmemtree := LoadFiles(files, b.shelf, next);
    if files == [] {
      NoneStored(files, b.shelf);
    }
    var r := mf.Seek(|buf|);
    tree.InRepr();
    fmemtree.InRepr();
  }

  /** Two empty trees. */
  method NewTrees() returns (tree: RT.RowTree, fmemtree: RT.RowTree)
    ensures fresh(tree) && fresh(tree.repr) && fresh(fmemtree) && fresh(fmemtree.repr) && tree.repr !! fmemtree.repr
    ensures tree.Valid() && fmemtree.Valid() && tree.rows == [] && fmemtree.rows == []
    ensures tree in tree.repr && fmemtree in fmemtree.repr
  {
    hide RT.RowTree.Valid;
    tree := new RT.RowTree();
    fmemtree := new RT.RowTree();
    tree.InRepr();
    fmemtree.InRepr();
  }

  // ---------- the session ----------

  ghost predicate Headers(header: nat -> seq<Byte>)
  {
    forall i :: |header(i)| == HDR_SIZE
  }

  lemma HeaderLen(header: nat -> seq<Byte>, i: nat)
    requires Headers(header)
    ensures |header(i)| == HDR_SIZE
  {
  }

  class Db {
    const header: nat -> seq<Byte>
    var mf: MF.MFile
    var tree: RT.RowTree
    var fmemtree: RT.RowTree
    var dirty: bool
    var dbdirty: bool
    /** The index and the last known good offset, as in the database's metadata file. */
    var curidx: nat
    var dotOffset: nat
    /** The finalised files in the database's directory, from the lowest index to the highest. */
    var files: seq<seq<Byte>>
    /** How many of them have been loaded. */
    var ffcount: nat
    ghost var book: Book

    ghost function Repr(): set<object>
      reads this, tree, fmemtree
    {
      {this, mf, tree, fmemtree} + tree.repr + fmemtree.repr
    }

    ghost predicate Trees()
      reads this, tree, fmemtree, tree.repr, fmemtree.repr
    {
      && tree.Valid() && fmemtree.Valid() && tree in tree.repr && fmemtree in fmemtree.repr
      && tree.repr !! fmemtree.repr
      && this !in tree.repr && this !in fmemtree.repr && mf !in tree.repr && mf !in fmemtree.repr
    }

    /** Files and trees agree with the book; only the CRC of a dirty file may not be running. */
    ghost predicate Sound()
      reads this, tree, fmemtree, tree.repr, fmemtree.repr, mf
    {
      && Trees() && AtEnd(mf) && Headers(header) && book.hdr == header(curidx)
      && Keeps(book, mf.buf, dotOffset, fmemtree.rows, tree.rows)
      && Shelf(book.shelf, curidx) && Stored(files, book.shelf) && (ffcount == 0 ==> fmemtree.rows == [])
    }

    ghost predicate Valid()
      reads this, tree, fmemtree, tree.repr, fmemtree.repr, mf
    {
      Sound() && (dirty ==> mf.computeCrc)
    }

    /** What the session looks like from outside. */
    ghost function State(): Model
      reads this, tree, fmemtree, mf
    {
      StateOf(book, fmemtree.rows, tree.rows, |mf.buf|, dotOffset, mf.crcLen, dirty)
    }

    /** The parts of the invariant that concern what is read. */
    lemma ReadParts()
      requires Valid()
      ensures tree.Valid() && fmemtree.Valid() && (ffcount == 0 ==> fmemtree.rows == [])
      ensures State().now == View(fmemtree.rows, tree.rows)
      ensures SortedRows(tree.rows) && SortedRows(fmemtree.rows)
    {
      hide View, SortedRows, Keeps, Shelf, Stored, Headers, AtEnd;
      tree.RowsSorted();
      fmemtree.RowsSorted();
    }

    lemma Parts()
      ensures State().size == |mf.buf| && State().pending == mf.crcLen && State().dirty == dirty
      ensures State().readable <==> ShelfReads(book.shelf) && AllPassable(book.log)
      ensures State().savedReadable <==> ShelfReads(book.shelf) && AllPassable(book.kept)
    {
    }

    /** A new database: its active file has only a header. */
    constructor (header: nat -> seq<Byte>)
      requires Headers(header)
      ensures Valid() && fresh(Repr())
      ensures State() == NewDatabase()
    {
      hide Keeps, StateOf, RT.RowTree.Valid, AtEnd, NewDatabase;
      Started(header(0));
      var f := NewActive(header(0));
      var t, fin := NewTrees();
      this.header, mf, tree, fmemtree := header, f, t, fin;
      dirty, dbdirty, curidx, dotOffset, files, ffcount := false, false, 0, HDR_SIZE, [], 0;
      book := Book([], header(0), [], [], []);
    }

    /** Puts a row into the tree and its item, which has been written, into the book. */
    method Note(row: Row, ghost item: Item, ghost buf: seq<Byte>)
      requires tree.Valid() && this !in tree.repr
      requires Keeps(book, buf, dotOffset, fmemtree.rows, tree.rows)
      requires Writable(item) && ItemRows(item) == [row] && !item.Commit?
      modifies this`dirty, this`dbdirty, this`book, tree.repr
      ensures tree.Valid() && tree in tree.repr && fresh(tree.repr - old(tree.repr)) && dirty && dbdirty
      ensures tree.rows == Upsert(old(tree.rows), row) && book == WithItem(old(book), item)
      ensures Keeps(book, buf + Encode(item), dotOffset, old(fmemtree.rows), tree.rows)
    {
      hide *;
      RowNoted(book, buf, dotOffset, fmemtree.rows, tree.rows, item, row);
      dirty, dbdirty := true, true;
      book := WithItem(book, item);
      tree.Replace(row);
      tree.InRepr();
    }

    /** Writes a key and a value at the end of the active file, and puts them into the tree. */
    method AddRecord(key: Key, val: seq<Byte>)
      requires Sound() && key != [] && Fits(key) && Fits(val)
      modifies this, mf, tree.repr
      ensures Valid() && fresh(Repr() - old(Repr())) && fmemtree == old(fmemtree)
      ensures var len := KeyLen(key) + ValLen(val);
        State() == WithRow(old(State()), Row(key, val, false), len, old(mf.crcLen) + len)
      ensures book == WithItem(old(book), KeyVal(key, val))
      ensures tree.rows == Upsert(old(tree.rows), Row(key, val, false))
    {
      hide Keeps, Encode, RT.RowTree.Valid, Shelf, Stored, Headers, StateOf, WithRow, KeyLen, ValLen, Writable, AtEnd;
      ghost var buf, rows := mf.buf, tree.rows;
      KeyValItem(key, val);
      AppendKeyVal(mf, key, val);
      RowState(book, buf, dotOffset, fmemtree.rows, rows, KeyVal(key, val), Row(key, val, false),
               old(mf.crcLen), mf.crcLen, dirty, KeyLen(key) + ValLen(val));
      Note(Row(key, val, false), KeyVal(key, val), buf);
    }

    /** Writes a deletion, and puts it into the tree; the CRC starts anew even in the middle of a transaction. */
    method Remove(key: Key)
      requires Valid() && key != [] && Fits(key)
      modifies this, mf, tree.repr
      ensures Valid() && fresh(Repr() - old(Repr())) && fmemtree == old(fmemtree)
      ensures State() == Step(old(State()), RemoveOp(key)) && book == WithItem(old(book), Delete(key))
      ensures tree.rows == Upsert(old(tree.rows), Row(key, [], true))
    {
      hide Keeps, Encode, RT.RowTree.Valid, Shelf, Stored, Headers, StateOf, WithRow, KeyLen, Writable, AtEnd, Step,
        EncodeDelete, Upsert;
      ghost var buf, rows := mf.buf, tree.rows;
      RemoveStep(State(), key);
      DeleteItem(key);
      AppendDelete(mf, key);
      RowState(book, buf, dotOffset, fmemtree.rows, rows, Delete(key), Row(key, [], true), old(mf.crcLen), mf.crcLen,
               dirty, KeyLen(key));
      Note(Row(key, [], true), Delete(key), buf);
    }

    /**
     zs_active_file_finalise and zs_active_file_new: a commit is written whether there is anything
     to commit or not, the file joins the finalised ones, and the next one is begun.  The trees stay.
     */
    method Roll() returns (ghost f: F.FileData, ghost item: Item)
      requires Valid() && mf.crcLen < TWO_64
      modifies this, mf
      ensures Sound() && !mf.computeCrc && mf.crcLen == 0 && fresh(mf)
      ensures tree == old(tree) && fmemtree == old(fmemtree) && dirty == old(dirty)
      ensures State() == Rolled(old(State())) && curidx == old(curidx) + 1 && files == old(files) + [f.buf]
      ensures book == RolledBook(old(book), f, header(curidx), tree.rows) && f.log == old(book).log + [item]
      ensures item == old(ClosingOf(mf)) && (Sealed(old(mf.buf), item) <==> old(mf.computeCrc) || old(mf.crc32) == 0)
    {
      hide Keeps, RT.RowTree.Valid, Sealed, Shelf, Stored, Headers, StateOf, Rolled, RolledBook, ClosingOf, AtEnd;
      var hdr := header(curidx + 1);
      HeaderLen(header, curidx + 1);
      f, item := CloseFile(mf, hdr, curidx, dotOffset, dirty, book, fmemtree.rows, tree.rows);
      NextHeader(book, f, hdr, tree.rows);
      StoredMore(files, book.shelf, f);
      files, book := files + [mf.buf], RolledBook(book, f, hdr, tree.rows);
      curidx, dotOffset := curidx + 1, HDR_SIZE;
      mf := NewActive(hdr);
    }

    /** Rolls over an active file of 2 MB or more. */
    method RollLarge()
      requires Valid() && (|mf.buf| >= TWO_MB ==> mf.crcLen < TWO_64)
      modifies this, mf
      ensures Sound() && (mf == old(mf) || fresh(mf)) && tree == old(tree) && fmemtree == old(fmemtree)
      ensures State() == if |old(mf.buf)| >= TWO_MB then Rolled(old(State())) else old(State())
      ensures book.log == if |old(mf.buf)| >= TWO_MB then [] else old(book).log
    {
      hide Keeps, RT.RowTree.Valid, Shelf, Stored, Headers, Sealed, Rolled, AtEnd, StateOf, Db.State, ClosingOf;
      if |mf.buf| >= TWO_MB {
        ghost var f, item := Roll();
      }
    }

    /** Adds a key and a value, after rolling over an active file of 2 MB or more. */
    method Add(key: Key, val: seq<Byte>)
      requires Valid() && key != [] && Fits(key) && Fits(val) && (|mf.buf| >= TWO_MB ==> mf.crcLen < TWO_64)
      modifies this, mf, tree.repr
      ensures Valid() && fresh(Repr() - old(Repr())) && fmemtree == old(fmemtree)
      ensures State() == Step(old(State()), AddOp(key, val))
      ensures tree.rows == Upsert(old(tree.rows), Row(key, val, false))
      ensures book.log == (if |old(mf.buf)| >= TWO_MB then [] else old(book).log) + [KeyVal(key, val)]
    {
      hide Keeps, RT.RowTree.Valid, Shelf, Stored, Headers, Rolled, WithRow, AtEnd, StateOf, Db.State, KeyLen, ValLen,
        Upsert, Db.Sound, Db.Trees;
      Parts();
      RollLarge();
      Parts();
      AddRecord(key, val);
    }

    /** zsdb_finalise: rolls the file over, and begins the CRC in the new one. */
    method Finalise()
      requires Valid() && mf.crcLen < TWO_64
      modifies this, mf
      ensures Valid() && fresh(Repr() - old(Repr())) && |files| == |old(files)| + 1
      ensures State() == Step(old(State()), FinaliseOp)
    {
      hide Keeps, RT.RowTree.Valid, Shelf, Stored, Headers, Sealed, Rolled, StateOf, AtEnd, ClosingOf;
      ghost var f, item := Roll();
      StartCrc(mf);
    }

    /** Writes a commit record, unless there is nothing to commit, and moves the good offset to the end. */
    method Commit()
      requires Valid() && mf.crcLen < TWO_64
      modifies this, mf
      ensures Valid() && Repr() == old(Repr()) && !dirty
      ensures old(dirty) || old(mf.crcLen) > 0 ==> dotOffset == |mf.buf| && book.kept == book.log
      ensures State() == Step(old(State()), CommitOp)
      ensures book.log == old(book).log + if old(dirty) || old(mf.crcLen) > 0 then [old(ClosingOf(mf))] else []
    {
      hide Keeps, Encode, RT.RowTree.Valid, Sealed, Shelf, Stored, Headers, StateOf, Step, Writable, ClosingOf,
        Ends, C.Crc;
      ghost var buf, pending := mf.buf, mf.crcLen;
      if mf.crcLen == 0 && !dirty {
        CleanState(book, fmemtree.rows, tree.rows, |buf|, dotOffset);
      } else {
        ghost var item := WriteClosing(mf);
        Committed(book, buf, dotOffset, fmemtree.rows, tree.rows, item);
        CommitState(book, buf, dotOffset, fmemtree.rows, tree.rows, item, pending, dirty);
        dirty := false;
        dotOffset := mf.offset;
        book := WithItem(book, item);
        book := book.(kept := book.log);
      }
    }

    /**
     Cuts the active file at the last good offset, and reloads; what is left must be passable, or that
     would not end.
     */
    method Abort()
      requires Valid() && ShelfReads(book.shelf) && AllPassable(book.kept)
      modifies Repr()
      ensures Valid() && fresh(Repr() - old(Repr())) && !dirty && dbdirty
      ensures State() == Step(old(State()), AbortOp) && book == CutBook(old(book))
      ensures tree.rows == Put([], LogRows(old(book).kept, |old(book).kept|))
    {
      hide Keeps, RT.RowTree.Valid, Shelf, Stored, Headers, StateOf, Step, AllPassable, ShelfReads, OlderRows;
      Reloaded(book, mf.buf, dotOffset, fmemtree.rows, tree.rows);
      AbortState(book, fmemtree.rows, tree.rows, |mf.buf|, dotOffset, mf.crcLen, dirty);
      CutFile(mf, dotOffset);
      dirty := false;
      book := CutBook(book);
      Reload();
    }

    /** Closes the files, and loads them again into new trees; the active file is not dirty. */
    method Reload()
      requires !dirty && |mf.buf| >= HDR_SIZE && book.base == [] && AllPassable(book.log)
      requires Logged(book.hdr, book.log, mf.buf, [], Put([], LogRows(book.log, |book.log|)))
      requires Shelf(book.shelf, curidx) && Stored(files, book.shelf) && ShelfReads(book.shelf)
      modifies this`mf, this`tree, this`fmemtree, this`dbdirty, this`ffcount
      ensures fresh({mf, tree, fmemtree} + tree.repr + fmemtree.repr) && Trees() && dbdirty && ffcount == |files|
      ensures tree.rows == Put([], LogRows(book.log, |book.log|))
      ensures fmemtree.rows == OlderRows(book.shelf, |book.shelf|) && (ffcount == 0 ==> fmemtree.rows == [])
      ensures AtEnd(mf) && !mf.computeCrc && mf.crcLen == 0 && mf.buf == old(mf.buf)
    {
      hide Logged, RT.RowTree.Valid, AllWritable, AllPassable, Shelf, Stored, ShelfReads, Put, LogRows, OlderRows,
        AtEnd;
      mf, tree, fmemtree := LoadAll(mf.buf, files, book, curidx);
      dbdirty, ffcount := true, |files|;
    }

    /** zs_active_file_close of a dirty file: a commit is written, but the good offset stays. */
    method Close()
      requires Valid() && dirty && mf.crcLen < TWO_64
      modifies this`dirty, this`book, mf
      ensures Valid() && !dirty && State() == Closed(old(State()))
      ensures book == WithItem(old(book), old(ClosingOf(mf)))
    {
      hide Keeps, Encode, RT.RowTree.Valid, Sealed, Shelf, Stored, Headers, StateOf, Closed, Writable, ClosingOf, Ends,
        C.Crc;
      ghost var buf, pending := mf.buf, mf.crcLen;
      ghost var item := WriteClosing(mf);
      Closes(book, buf, dotOffset, fmemtree.rows, tree.rows, item);
      ClosedState(book, fmemtree.rows, tree.rows, |buf|, dotOffset, item, pending, dirty);
      dirty := false;
      book := WithItem(book, item);
    }

    /** zsdb_open of a database that is there already: everything is loaded from the files. */
    method Open()
      requires Valid() && !dirty && ShelfReads(book.shelf) && AllPassable(book.log)
      modifies this`mf, this`tree, this`fmemtree, this`dbdirty, this`ffcount, this`book
      ensures Valid() && fresh(Repr() - old(Repr())) && !dirty && ffcount == |files|
      ensures State() == old(State()).(pending := 0)
    {
      hide Keeps, RT.RowTree.Valid, Shelf, Stored, Headers, AllPassable, ShelfReads, OlderRows, Put, LogRows, View,
        StateOf, AtEnd;
      LoadedAgain(book, mf.buf, dotOffset, fmemtree.rows, tree.rows);
      LoadedState(book, mf.buf, dotOffset, fmemtree.rows, tree.rows, mf.crcLen, dirty);
      book := book.(base := []);
      Reload();
    }

    /** zsdb_close and zsdb_open. */
    method Reopen()
      requires Valid() && InScope(State(), ReopenOp)
      modifies Repr()
      ensures Valid() && fresh(Repr() - old(Repr())) && !dirty && ffcount == |files| && files == old(files)
      ensures State() == Step(old(State()), ReopenOp) && State().now == old(State()).now
    {
      hide Keeps, RT.RowTree.Valid, Shelf, Stored, Headers, AllPassable, ShelfReads, StateOf, AtEnd, ClosingOf,
        Db.State;
      Parts();
      if dirty {
        Close();
        Parts();
      }
      Open();
    }

    /** Reads all files of the database into new trees: together these say what the database says. */
    method Reread() returns (rows: RT.RowTree, fin: RT.RowTree)
      requires Valid() && State().readable
      ensures fresh(rows) && fresh(rows.repr) && fresh(fin) && fresh(fin.repr) && rows.Valid() && fin.Valid()
      ensures View(fin.rows, rows.rows) == State().now
    {
      hide Keeps, RT.RowTree.Valid, Shelf, Stored, Headers, AllPassable, ShelfReads, OlderRows, Put, View, AtEnd;
      Parts();
      LoadedAgain(book, mf.buf, dotOffset, fmemtree.rows, tree.rows);
      var f;
      f, rows, fin := LoadAll(mf.buf, files, book, curidx);
    }

    /** Without finalised files the active file alone gives the rows of the active tree. */
    lemma OnlyActive()
      requires Valid() && files == []
      ensures Logged(book.hdr, book.log, mf.buf, [], tree.rows)
    {
      hide RT.RowTree.Valid, Headers, Shelf, Logged, AtEnd;
      ActiveAlone(book, mf.buf, dotOffset, fmemtree.rows, tree.rows);
    }
  }

  // ---------- whole runs ----------

  method Do(db: Db, op: Op)
    requires db.Valid() && InScope(db.State(), op)
    modifies db.Repr()
    ensures db.Valid() && fresh(db.Repr() - old(db.Repr())) && db.State() == Step(old(db.State()), op)
  {
    hide Db.Valid, Step, Db.State, StateOf, AllPassable, ShelfReads;
    db.Parts();
    match op
    case AddOp(key, val) => db.Add(key, val);
    case RemoveOp(key) => db.Remove(key);
    case CommitOp => db.Commit();
    case AbortOp => db.Abort();
    case FinaliseOp => db.Finalise();
    case ReopenOp => db.Reopen();
  }

  /** Operations one after the other do what the reference says. */
  method Run(db: Db, ops: seq<Op>)
    requires db.Valid() && AllInScope(db.State(), ops)
    modifies db.Repr()
    ensures db.Valid() && fresh(db.Repr() - old(db.Repr())) && db.State() == Steps(old(db.State()), ops, |ops|)
  {
    hide Db.Valid, Db.State, Step, InScope;
    ghost var m := db.State();
    var n := 0;
    while n < |ops|
      invariant n <= |ops| && db.Valid() && fresh(db.Repr() - old(db.Repr())) && db.State() == Steps(m, ops, n)
    {
      Do(db, ops[n]);
      n := n + 1;
    }
  }
}
