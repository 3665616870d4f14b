/** Appending records to a mapped file. */
module Writer {
  import opened Bytes
  import opened Format
  import opened Words
  import C = Crc32c
  import Fast = Crc32cFast
  import MF = MFile
  import Record

  /** The file is written at its end. */
  ghost predicate AtEnd(mf: MF.MFile)
    reads mf
  {
    mf.Accounted() && mf.offset == |mf.buf|
  }

  /** Nothing but the contents, the offset and the data length changes in a run of writes. */
  twostate predicate SameCrc(mf: MF.MFile)
    reads mf
  {
    mf.computeCrc == old(mf.computeCrc) && mf.crcBegin == old(mf.crcBegin) && mf.crc32 == old(mf.crc32)
  }

  method WriteKeyVal(mf: MF.MFile, key: Key, val: seq<Byte>)
    requires AtEnd(mf) && Fits(key) && Fits(val)
    modifies mf
    ensures AtEnd(mf) && mf.buf == old(mf.buf) + (EncodeKey(key) + EncodeVal(val)) && SameCrc(mf)
  {
    hide EncodeKey, EncodeVal;
    var kbuf := Record.PrepareKeyBuf(key);
    var vbuf := Record.PrepareValBuf(val);
    mf.Write(kbuf[..]);
    mf.Write(vbuf[..]);
  }

  method WriteDelete(mf: MF.MFile, key: Key)
    requires AtEnd(mf) && Fits(key)
    modifies mf
    ensures AtEnd(mf) && mf.buf == old(mf.buf) + EncodeDelete(key) && SameCrc(mf)
  {
    hide EncodeDelete;
    var kbuf := Record.PrepareDeleteKeyBuf(key);
    mf.Write(kbuf[..]);
  }

  /** The data that the CRC is being computed over. */
  ghost function Data(mf: MF.MFile): seq<Byte>
    requires AtEnd(mf) && mf.computeCrc
    reads mf
  {
    mf.buf[mf.crcBegin..]
  }

  /** The long form: the CRC goes on over the type, the length and the second type. */
  method WriteLongCommit(mf: MF.MFile, t: nat)
    requires AtEnd(mf) && mf.computeCrc && |Data(mf)| < TWO_64 && t < 256
    modifies mf
    ensures AtEnd(mf) && !mf.computeCrc && mf.crc32 == C.Crc(C.Crc(0, []), old(Data(mf)))
    ensures var data := old(Data(mf));
      mf.buf == old(mf.buf) + EncodeLongCommit(t, |data|, LongCommitCrc(data, t, |data|))
  {
    hide C.Crc, Be64, Le64;
    assert mf.buf[mf.crcBegin..mf.offset] == Data(mf);
    var length := mf.crcLen;
    var crc := mf.CrcEnd();
    crc := Fast.CrcHw(crc, Le64(Tag(t)), 0);
    crc := Fast.CrcHw(crc, Le64(length), 0);
    crc := Fast.CrcHw(crc, Le64(Tag(SECOND_HALF_COMMIT)), 0);
    mf.Write(EncodeLongCommit(t, length, crc as nat));
  }

  /** What a short commit record is when no CRC is running: over no data, from the CRC that is left. */
  function StaleCommit(stale: C.Word32, t: nat): seq<Byte>
    requires t < 256
  {
    EncodeCommit(t, 0, C.Crc(stale, Le64(CommitWord(t, 0))) as nat)
  }

  method WriteShortCommit(mf: MF.MFile, t: nat)
    requires AtEnd(mf) && (mf.computeCrc ==> |Data(mf)| <= MAX_SHORT_VAL_LEN) && t < 256
    modifies mf
    ensures AtEnd(mf) && !mf.computeCrc
    ensures old(mf.computeCrc) ==>
      var data := old(Data(mf));
      && mf.crc32 == C.Crc(C.Crc(0, []), data)
      && mf.buf == old(mf.buf) + EncodeCommit(t, |data|, CommitCrc(data, CommitWord(t, |data|)))
    ensures !old(mf.computeCrc) ==> mf.buf == old(mf.buf) + StaleCommit(old(mf.crc32), t)
  {
    hide C.Crc, Be64, Le64;
    assert mf.computeCrc ==> mf.buf[mf.crcBegin..mf.offset] == Data(mf);
    var length := mf.crcLen;
    var crc := mf.CrcEnd();
    crc := Fast.CrcHw(crc, Le64(CommitWord(t, length)), 0);
    mf.Write(EncodeCommit(t, length, crc as nat));
  }

  /** Ends the CRC and writes the commit record that goes with the data. */
  method WriteCommit(mf: MF.MFile, final: bool)
    requires AtEnd(mf) && mf.crcLen < TWO_64
    modifies mf
    ensures AtEnd(mf) && !mf.computeCrc
    ensures old(mf.computeCrc) ==> mf.crc32 == C.Crc(C.Crc(0, []), old(Data(mf)))
    ensures old(mf.computeCrc) ==> mf.buf == old(mf.buf) + CommitFor(old(Data(mf)), final)
    ensures !old(mf.computeCrc) ==> mf.buf == old(mf.buf) + StaleCommit(old(mf.crc32), if final then FINAL else COMMIT)
  {
    hide C.Crc, Le64;
    if mf.crcLen > MAX_SHORT_VAL_LEN {
      WriteLongCommit(mf, if final then LONG_FINAL else LONG_COMMIT);
    } else {
      WriteShortCommit(mf, if final then FINAL else COMMIT);
    }
  }
}
