/** Writing records into buffers, and reading and dispatching on the records of a mapped file. */
module Record {
  import opened Bytes
  import opened Format
  import opened Rows
  import opened Words
  import opened Wrappers
  import C = Crc32c
  import Fast = Crc32cFast

  // ---------- writing ----------

  /** Stores a big-endian word at pos. */
  method WriteBe64(buf: array<Byte>, pos: nat, w: Word)
    requires pos + 8 <= buf.Length
    modifies buf
    ensures buf[..] == old(buf[..pos]) + Be64(w) + old(buf[pos + 8..])
  {
    Copy(buf, pos, Be64(w));
  }

  /** Copies data to pos. */
  method Copy(buf: array<Byte>, pos: nat, data: seq<Byte>)
    requires pos + |data| <= buf.Length
    modifies buf
    ensures buf[..] == old(buf[..pos]) + data + old(buf[pos + |data|..])
  {
    var i := 0;
    while i < |data|
      invariant i <= |data|
      invariant buf[..] == old(buf[..pos]) + data[..i] + old(buf[pos + i..])
    {
      buf[pos + i] := data[i];
      i := i + 1;
    }
  }

  /** Fills a zeroed buffer: three words and then the data. */
  method FillKey(kbuf: array<Byte>, w0: Word, w1: Word, w2: Word, key: Key)
    requires kbuf.Length == KeyLen(key) && kbuf[..] == Zeros(kbuf.Length)
    modifies kbuf
    ensures kbuf[..] == Be64(w0) + Be64(w1) + Be64(w2) + Padded(key)
  {
    ghost var n := kbuf.Length;
    var pos := 0;
    WriteBe64(kbuf, pos, w0);
    assert kbuf[..] == Be64(w0) + Zeros(n - 8);
    pos := pos + 8;
    WriteBe64(kbuf, pos, w1);
    assert kbuf[..] == Be64(w0) + Be64(w1) + Zeros(n - 16);
    pos := pos + 8;
    WriteBe64(kbuf, pos, w2);
    assert kbuf[..] == Be64(w0) + Be64(w1) + Be64(w2) + Zeros(n - 24);
    pos := pos + 8;
    Copy(kbuf, pos, key);
    assert kbuf[..] == Be64(w0) + Be64(w1) + Be64(w2) + key + Zeros(n - 24 - |key|);
  }

  method PrepareKeyBuf(key: Key) returns (kbuf: array<Byte>)
    requires Fits(key)
    ensures fresh(kbuf) && kbuf[..] == EncodeKey(key)
  {
    hide Be64, RoundUpBits;
    RoundUpBitsIff(|key|);
    var kbuflen := KEY_BASE_SIZE + RoundUpBits(|key|);
    kbuf := new Byte[kbuflen](_ => 0);
    if |key| <= MAX_SHORT_KEY_LEN {
      FillKey(kbuf, KEY * TWO_56 + |key| * TWO_40 + kbuflen, 0, 0, key);
    } else {
      FillKey(kbuf, LONG_KEY * TWO_56, |key|, kbuflen, key);
    }
  }

  /** Fills a zeroed buffer: two words and then the data. */
  method FillVal(vbuf: array<Byte>, w0: Word, w1: Word, val: seq<Byte>)
    requires vbuf.Length == ValLen(val) && vbuf[..] == Zeros(vbuf.Length)
    modifies vbuf
    ensures vbuf[..] == Be64(w0) + Be64(w1) + Padded(val)
  {
    hide Be64, Zeros;
    ghost var n := vbuf.Length;
    var pos := 0;
    WriteBe64(vbuf, pos, w0);
    assert vbuf[..] == Be64(w0) + Zeros(n - 8);
    pos := pos + 8;
    WriteBe64(vbuf, pos, w1);
    assert vbuf[..] == Be64(w0) + Be64(w1) + Zeros(n - 16);
    pos := pos + 8;
    Copy(vbuf, pos, val);
    assert vbuf[..] == Be64(w0) + Be64(w1) + val + Zeros(n - 16 - |val|);
  }

  method PrepareValBuf(val: seq<Byte>) returns (vbuf: array<Byte>)
    requires Fits(val)
    ensures fresh(vbuf) && vbuf[..] == EncodeVal(val)
  {
    hide Be64, RoundUpBits;
    RoundUpBitsIff(|val|);
    vbuf := new Byte[VAL_BASE_SIZE + RoundUpBits(|val|)](_ => 0);
    var w, n := if |val| <= MAX_SHORT_VAL_LEN then VALUE * TWO_56 + |val| * TWO_32 else LONG_VALUE * TWO_56, 0;
    if |val| > MAX_SHORT_VAL_LEN {
      n := |val|;
    }
    FillVal(vbuf, w, n, val);
  }

  /** The word of a long deleted key is skipped over, not written. */
  method PrepareDeleteKeyBuf(key: Key) returns (kbuf: array<Byte>)
    requires Fits(key)
    ensures fresh(kbuf) && kbuf[..] == EncodeDelete(key)
  {
    hide Be64, RoundUpBits;
    RoundUpBitsIff(|key|);
    kbuf := new Byte[KEY_BASE_SIZE + RoundUpBits(|key|)](_ => 0);
    if |key| <= MAX_SHORT_KEY_LEN {
      FillKey(kbuf, DELETED * TWO_56 + |key| * TWO_40, 0, 0, key);
    } else {
      FillKey(kbuf, 0, |key|, 0, key);
    }
  }

  // ---------- reading ----------

  /** A key record's fields, and where its key starts. */
  datatype ZsKey = ZsKey(t: nat, slen: nat, svalOffset: nat, llen: nat, lvalOffset: nat, data: nat)

  /** A value record's fields, and where its value starts. */
  datatype ZsVal = ZsVal(t: nat, slen: nat, llen: nat, data: nat)

  method ReadKeyRec(buf: seq<Byte>, offset: nat) returns (key: ZsKey)
    requires offset + KEY_BASE_SIZE <= |buf|
    ensures key.t == TypeOf(ReadBe64(buf, offset)) && key.data == offset + KEY_BASE_SIZE
    ensures key.t == KEY || key.t == DELETED ==>
      key.slen == ReadBe64(buf, offset) / TWO_40 % TWO_24 % TWO_16 && key.svalOffset == ReadBe64(buf, offset) % TWO_32
    ensures key.t == LONG_KEY || key.t == LONG_DELETED ==>
      key.llen == ReadBe64(buf, offset + 8) && key.lvalOffset == ReadBe64(buf, offset + 16)
  {
    var data := ReadBe64(buf, offset);
    key := ZsKey(TypeOf(data), 0, 0, 0, 0, offset + KEY_BASE_SIZE);
    if key.t == KEY || key.t == DELETED {
      key := key.(slen := data / TWO_40 % TWO_24 % TWO_16, svalOffset := data % TWO_32);
    } else if key.t == LONG_KEY || key.t == LONG_DELETED {
      key := key.(llen := ReadBe64(buf, offset + 8), lvalOffset := ReadBe64(buf, offset + 16));
    }
  }

  method ReadValRec(buf: seq<Byte>, offset: nat) returns (val: ZsVal)
    requires offset + VAL_BASE_SIZE <= |buf|
    ensures val.t == TypeOf(ReadBe64(buf, offset)) && val.data == offset + VAL_BASE_SIZE
    ensures val.t == VALUE ==> val.slen == ReadBe64(buf, offset) / TWO_32 % TWO_24
    ensures val.t == LONG_VALUE ==> val.llen == ReadBe64(buf, offset + 8)
  {
    var data := ReadBe64(buf, offset);
    val := ZsVal(TypeOf(data), 0, 0, offset + VAL_BASE_SIZE);
    if val.t == VALUE {
      val := val.(slen := data / TWO_32 % TWO_24);
    } else if val.t == LONG_VALUE {
      val := val.(llen := ReadBe64(buf, offset + 8));
    }
  }

  /** What stands at offset, seen from its fields. */
  lemma KeyValAt(buf: seq<Byte>, offset: nat, k: Key, v: seq<Byte>)
    requires Fits(k) && Fits(v) && At(buf, offset, EncodeKey(k) + EncodeVal(v))
    ensures At(buf, offset, EncodeKey(k)) && At(buf, offset + KeyLen(k), EncodeVal(v))
    ensures offset + KeyLen(k) + ValLen(v) <= |buf|
  {
    hide At, EncodeKey, EncodeVal;
    AtInside(buf, offset, EncodeKey(k) + EncodeVal(v));
    AtSplit(buf, offset, EncodeKey(k), EncodeVal(v));
  }

  /** Reads the key that was written at offset, and where its value is. */
  method ReadKey(buf: seq<Byte>, offset: nat, ghost k: Key) returns (key: Key, next: nat)
    requires Fits(k) && At(buf, offset, EncodeKey(k))
    ensures key == k && next == offset + KeyLen(k)
  {
    hide At, EncodeKey, KeyWord, ReadBe64;
    KeyAt(buf, offset, k);
    KeyFields(k);
    var zk := ReadKeyRec(buf, offset);
    var short := zk.t == KEY || zk.t == DELETED;
    var keylen := if short then zk.slen else zk.llen;
    key := buf[zk.data..zk.data + keylen];
    next := offset + if short then zk.svalOffset else zk.lvalOffset;
  }

  /** Reads the value that was written at offset, and where it ends. */
  method ReadVal(buf: seq<Byte>, offset: nat, ghost v: seq<Byte>) returns (val: seq<Byte>, next: nat)
    requires Fits(v) && At(buf, offset, EncodeVal(v))
    ensures val == v && next == offset + ValLen(v)
  {
    hide At, EncodeVal, ValWord, ReadBe64;
    ValAt(buf, offset, v);
    ValFields(v);
    var zv := ReadValRec(buf, offset);
    var vallen := if zv.t == VALUE then zv.slen else zv.llen;
    RoundUpBitsIff(|v|);
    val := buf[zv.data..zv.data + vallen];
    next := offset + VAL_BASE_SIZE + RoundUpBits(vallen);
  }

  /** Reads the key and the value that were written at offset, and goes past them. */
  method ReadKeyVal(buf: seq<Byte>, offset: nat, ghost k: Key, ghost v: seq<Byte>)
    returns (offset': nat, key: Key, val: seq<Byte>)
    requires Fits(k) && Fits(v) && At(buf, offset, EncodeKey(k) + EncodeVal(v))
    ensures offset' == offset + KeyLen(k) + ValLen(v) && key == k && val == v
  {
    hide At, EncodeKey, EncodeVal;
    KeyValAt(buf, offset, k, v);
    key, offset' := ReadKey(buf, offset, k);
    val, offset' := ReadVal(buf, offset', v);
  }

  /** A long deletion as it would be if its first word were written. */
  function TypedDelete(key: Key): (s: seq<Byte>)
    requires Fits(key)
    ensures |s| == KeyLen(key)
  {
    Be64(Tag(LONG_DELETED)) + Be64(|key|) + Be64(0) + Padded(key)
  }

  /** Its type is 32, that of the long form alone. */
  lemma TypedFirst(key: Key)
    requires Fits(key)
    ensures TypedDelete(key)[0] as nat == 32
  {
    hide Be64;
    Be64Bytes(Tag(LONG_DELETED));
  }

  /** A deletion that has a type stands at offset. */
  ghost predicate DeletionAt(buf: seq<Byte>, offset: nat, key: Key)
  {
    Fits(key) && if |key| <= MAX_SHORT_KEY_LEN then At(buf, offset, EncodeDelete(key))
                 else At(buf, offset, TypedDelete(key))
  }

  lemma TypedAt(buf: seq<Byte>, i: nat, key: Key)
    requires Fits(key) && At(buf, i, TypedDelete(key))
    ensures i + KeyLen(key) <= |buf| && ReadBe64(buf, i) == Tag(LONG_DELETED) && ReadBe64(buf, i + 8) == |key|
    ensures buf[i + KEY_BASE_SIZE..i + KEY_BASE_SIZE + |key|] == key
  {
    hide Be64, At, ReadBe64;
    AtSplit(buf, i, Be64(Tag(LONG_DELETED)) + Be64(|key|) + Be64(0), Padded(key));
    AtMiddle(buf, i, Be64(Tag(LONG_DELETED)), Be64(|key|), Be64(0));
    WordInside(buf, i, Tag(LONG_DELETED));
    WordInside(buf, i + 8, |key|);
    WordInside(buf, i + 16, 0);
    PaddedInside(buf, i + KEY_BASE_SIZE, key);
  }

  /** Reads the deleted key at offset, and goes past it. */
  method ReadDeleted(buf: seq<Byte>, offset: nat, ghost k: Key) returns (offset': nat, key: Key)
    requires DeletionAt(buf, offset, k)
    ensures offset' == offset + KeyLen(k) && key == k
  {
    hide Be64, At, ReadBe64;
    if |k| <= MAX_SHORT_KEY_LEN {
      DeleteAt(buf, offset, k);
      DeleteFields(k);
    } else {
      TypedAt(buf, offset, k);
    }
    var zk := ReadKeyRec(buf, offset);
    var keylen := if zk.t == DELETED then zk.slen else zk.llen;
    RoundUpBitsIff(|k|);
    offset' := offset + KEY_BASE_SIZE + RoundUpBits(keylen);
    key := buf[zk.data..zk.data + keylen];
  }

  /**
   Checks the short commit at offset: its CRC must be that of the data before it, of the
   length it says, and of its own word without the CRC.
   */
  method ReadAndVerifyCommit(buf: seq<Byte>, offset: nat, ghost length: nat, ghost crc: nat)
    returns (ok: bool, offset': nat)
    requires length <= MAX_SHORT_VAL_LEN && crc < TWO_32 && At(buf, offset, EncodeCommit(COMMIT, length, crc))
    requires length <= offset
    ensures offset' == offset + SHORT_COMMIT_SIZE
    ensures ok <==> crc == CommitCrc(buf[offset - length..offset], CommitWord(COMMIT, length))
  {
    hide C.Crc;
    LengthFields(COMMIT, length, crc);
    WordAt(buf, offset, CommitWord(COMMIT, length) + crc);
    var data := ReadBe64(buf, offset);
    offset' := offset + SHORT_COMMIT_SIZE;
    var len := data / TWO_32 % TWO_24;
    var c := Fast.CrcHw(0, [], 0);
    var w := data - data % TWO_32;
    c := Fast.CrcHw(c, buf[offset - len..offset], offset - len);
    c := Fast.CrcHw(c, Le64(w), 0);
    ok := data % TWO_32 == c as nat;
  }

  /**
   A commit that is accepted is refused when one byte of the data it covers has become another, and
   accepted otherwise.
   */
  method VerifyChanged(buf: seq<Byte>, offset: nat, i: nat, x: Byte, ghost length: nat, ghost crc: nat)
    returns (ok: bool)
    requires length <= MAX_SHORT_VAL_LEN && crc < TWO_32 && At(buf, offset, EncodeCommit(COMMIT, length, crc))
    requires length <= offset && crc == CommitCrc(buf[offset - length..offset], CommitWord(COMMIT, length))
    requires offset - length <= i < offset
    ensures ok <==> x == buf[i]
  {
    hide EncodeCommit, CommitCrc, CommitWord;
    assert i < |buf|;
    var changed := buf[i := x];
    ChangedBelow(buf, offset, i, x, length, EncodeCommit(COMMIT, length, crc));
    var next;
    ok, next := ReadAndVerifyCommit(changed, offset, length, crc);
    if ok {
      CommitCrcTells(buf[offset - length..offset], i - (offset - length), x, CommitWord(COMMIT, length));
    }
  }

  lemma ChangedBelow(buf: seq<Byte>, offset: nat, i: nat, x: Byte, length: nat, s: seq<Byte>)
    requires At(buf, offset, s) && length <= offset && offset - length <= i < offset
    ensures At(buf[i := x], offset, s)
    ensures buf[i := x][offset - length..offset] == buf[offset - length..offset][i - (offset - length) := x]
    ensures x == buf[i] ==> buf[i := x] == buf
  {
    assert buf[i := x][offset..offset + |s|] == buf[offset..offset + |s|];
  }

  /** The types that the dispatch does something for. */
  predicate Handled(t: nat)
  {
    t == KEY || t == LONG_KEY || t == COMMIT || t == LONG_COMMIT || t == DELETED || t == LONG_DELETED
  }

  /** What the encoder writes for a deletion is dispatched on exactly when the key is short. */
  lemma DeleteHandled(buf: seq<Byte>, offset: nat, key: Key)
    requires Fits(key) && At(buf, offset, EncodeDelete(key))
    ensures offset + 8 <= |buf| && (Handled(TypeOf(ReadBe64(buf, offset))) <==> |key| <= MAX_SHORT_KEY_LEN)
  {
    hide Be64, At, ReadBe64;
    DeleteAt(buf, offset, key);
    DeleteFields(key);
  }

  /**
   Reads one record.  A record that was written gives its rows, if its commit is good, and is
   gone past.  A word of any other type, as a long deletion has, is left where it is: nothing is
   read and no error given.
   */
  method RecordRead(buf: seq<Byte>, offset: nat, ghost item: Option<Item>)
    returns (ok: bool, offset': nat, rows: seq<Row>)
    requires offset + 8 <= |buf|
    requires item.Some? ==> Writable(item.value) && Passable(item.value) && At(buf, offset, Encode(item.value))
    requires item.Some? && item.value.Commit? ==> item.value.length <= offset
    requires item == None ==> !Handled(TypeOf(ReadBe64(buf, offset)))
    ensures item == None ==> ok && offset' == offset && rows == []
    ensures item.Some? ==> offset' == offset + |Encode(item.value)| && rows == ItemRows(item.value)
    ensures item.Some? ==> (ok <==> Sealed(buf[..offset], item.value))
  {
    ghost var _ := TypeAt(buf, offset, item);
    var t := TypeOf(ReadBe64(buf, offset));
    ok, offset', rows := true, offset, [];
    if t == KEY || t == LONG_KEY {
      var key, val;
      offset', key, val := ReadKeyVal(buf, offset, item.value.key, item.value.val);
      rows := [Row(key, val, false)];
    } else if t == COMMIT || t == LONG_COMMIT {
      ok, offset' := ReadAndVerifyCommit(buf, offset, item.value.length, item.value.crc);
      assert buf[..offset][offset - item.value.length..] == buf[offset - item.value.length..offset];
    } else if t == DELETED || t == LONG_DELETED {
      var key;
      offset', key := ReadDeleted(buf, offset, item.value.key);
      rows := [Row(key, [], true)];
    }
  }

  /** The type says what was written. */
  lemma TypeAt(buf: seq<Byte>, offset: nat, item: Option<Item>) returns (t: nat)
    requires offset + 8 <= |buf|
    requires item.Some? ==> Writable(item.value) && Passable(item.value) && At(buf, offset, Encode(item.value))
    ensures t == TypeOf(ReadBe64(buf, offset))
    ensures item.Some? ==> match item.value
      case KeyVal(_, _) => t == KEY || t == LONG_KEY
      case Delete(_) => t == DELETED
      case Commit(_, _) => t == COMMIT
  {
    t := TypeOf(ReadBe64(buf, offset));
    match item {
      case None =>
      case Some(KeyVal(k, v)) =>
        AtSplit(buf, offset, EncodeKey(k), EncodeVal(v));
        KeyAt(buf, offset, k);
        KeyFields(k);
      case Some(Delete(k)) =>
        DeleteAt(buf, offset, k);
        DeleteFields(k);
      case Some(Commit(length, crc)) =>
        LengthFields(COMMIT, length, crc);
        WordAt(buf, offset, CommitWord(COMMIT, length) + crc);
    }
  }

  lemma DeleteNoOffset(key: Key)
    requires |key| <= MAX_SHORT_KEY_LEN
    ensures DeleteWord(key) % TWO_32 == 0
  {
    ShortKeyFields(DELETED, |key|, 0);
  }

  /** Reads the key of an item, and where its value offset leads: for a deletion, back to its own first word. */
  method ReadItemKey(buf: seq<Byte>, offset: nat, ghost item: Item) returns (key: Key, next: nat)
    requires (item.KeyVal? || item.Delete?) && Writable(item) && Passable(item) && At(buf, offset, Encode(item))
    ensures key == item.key && next == offset + if item.KeyVal? then KeyLen(item.key) else 0
  {
    hide At, EncodeKey, EncodeVal, EncodeDelete, KeyWord, DeleteWord, ReadBe64;
    if item.KeyVal? {
      KeyValAt(buf, offset, item.key, item.val);
      KeyAt(buf, offset, item.key);
      KeyFields(item.key);
    } else {
      DeleteAt(buf, offset, item.key);
      DeleteFields(item.key);
      DeleteNoOffset(item.key);
    }
    var zk := ReadKeyRec(buf, offset);
    var short := zk.t == KEY || zk.t == DELETED;
    var keylen := if short then zk.slen else zk.llen;
    key := buf[zk.data..zk.data + keylen];
    next := offset + if short then zk.svalOffset else zk.lvalOffset;
  }

  /** Reads the value at offset, if one is there: a deletion may be instead. */
  method ReadItemVal(buf: seq<Byte>, offset: nat, ghost v: Option<seq<Byte>>) returns (val: Option<seq<Byte>>)
    requires offset + VAL_BASE_SIZE <= |buf|
    requires v.Some? ==> Fits(v.value) && At(buf, offset, EncodeVal(v.value))
    requires v == None ==> TypeOf(ReadBe64(buf, offset)) == DELETED
    ensures val == v
  {
    hide At, EncodeVal, ValWord, ReadBe64;
    if v.Some? {
      ValAt(buf, offset, v.value);
      ValFields(v.value);
    }
    var zv := ReadValRec(buf, offset);
    val := None;
    if zv.t == VALUE || zv.t == LONG_VALUE {
      var vallen := if zv.t == VALUE then zv.slen else zv.llen;
      val := Some(buf[zv.data..zv.data + vallen]);
    }
  }

  /** What the value offset of an item leads to. */
  lemma ValueAt(buf: seq<Byte>, offset: nat, item: Item)
    requires (item.KeyVal? || item.Delete?) && Writable(item) && Passable(item) && At(buf, offset, Encode(item))
    ensures item.KeyVal? ==>
      var next := offset + KeyLen(item.key); next + VAL_BASE_SIZE <= |buf| && At(buf, next, EncodeVal(item.val))
    ensures item.Delete? ==> offset + VAL_BASE_SIZE <= |buf| && TypeOf(ReadBe64(buf, offset)) == DELETED
  {
    hide At, EncodeKey, EncodeVal, EncodeDelete, DeleteWord, ReadBe64;
    if item.KeyVal? {
      KeyValAt(buf, offset, item.key, item.val);
    } else {
      DeleteAt(buf, offset, item.key);
      DeleteFields(item.key);
    }
  }

  /**
   Reads a key at offset, and the value that its value offset leads to.  A deletion has no value
   offset, so the read comes back to its own first word and finds no value there.
   */
  method ReadKeyValFromOffset(buf: seq<Byte>, offset: nat, ghost item: Item) returns (key: Key, val: Option<seq<Byte>>)
    requires (item.KeyVal? || item.Delete?) && Writable(item) && Passable(item) && At(buf, offset, Encode(item))
    ensures key == item.key && val == if item.KeyVal? then Some(item.val) else None
  {
    hide At, Encode, ReadBe64, TypeOf, Passable;
    ValueAt(buf, offset, item);
    var next;
    key, next := ReadItemKey(buf, offset, item);
    val := ReadItemVal(buf, next, if item.KeyVal? then Some(item.val) else None);
  }
}
