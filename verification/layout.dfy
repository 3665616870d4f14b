/** Where the fields of records stand in a file, byte by byte and in numbers. */
module Layout {
  import opened Bytes
  import opened Format
  import opened Words

  lemma Concat(h: nat, n: nat, l: nat, m: nat, p: nat)
    requires Power(m) == p && l < p
    ensures BytesOf(h * p + l, n + m) == BytesOf(h, n) + BytesOf(l, m)
  {
    BytesConcat(h, n, l, m);
  }

  lemma FieldWord(t: nat, n: nat, k: nat)
    requires t < 0x100 && n < 0x100_0000 && k < 0x1_0000_0000
    ensures t * 0x100_0000_0000_0000 + n * 0x1_0000_0000 + k == (t * 0x100_0000 + n) * 0x1_0000_0000 + k < TWO_64
  {
  }

  lemma FirstByte(t: nat)
    requires t < 0x100
    ensures BytesOf(t, 1)[0] as nat == t
  {
    hide BytesOf;
    Powers();
    BytesAt(t, 1, 0);
  }

  /** A word with an 8-bit, a 24-bit and a 32-bit field: they stand in this order, each its high byte first. */
  lemma FieldBytes(t: nat, n: nat, k: nat)
    requires t < 0x100 && n < 0x100_0000 && k < 0x1_0000_0000
    ensures var w := t * 0x100_0000_0000_0000 + n * 0x1_0000_0000 + k;
      w < TWO_64 && Be64(w) == BytesOf(t, 1) + BytesOf(n, 3) + BytesOf(k, 4) && Be64(w)[0] as nat == t
  {
    hide BytesOf, Power;
    Powers();
    FieldWord(t, n, k);
    Concat(t, 1, n, 3, 0x100_0000);
    Concat(t * 0x100_0000 + n, 4, k, 4, 0x1_0000_0000);
    FirstByte(t);
  }

  /** A word with an 8-bit and a 16-bit field, 8 bits that are not used, and a 32-bit field. */
  lemma ShortFieldBytes(t: nat, n: nat, k: nat)
    requires t < 0x100 && n < 0x1_0000 && k < 0x1_0000_0000
    ensures var w := t * 0x100_0000_0000_0000 + n * 0x100_0000_0000 + k;
      && w < TWO_64 && Be64(w) == BytesOf(t, 1) + BytesOf(n, 2) + BytesOf(0, 1) + BytesOf(k, 4)
      && Be64(w)[0] as nat == t
  {
    hide BytesOf, Power, Be64;
    Powers();
    FieldBytes(t, n * 0x100, k);
    Concat(n, 2, 0, 1, 0x100);
  }

  /** No bits, no bytes. */
  lemma {:induction false} NoBits(n: nat)
    ensures BytesOf(0, n) == Zeros(n)
  {
    if n > 0 {
      NoBits(n - 1);
      assert Zeros(n) == Zeros(n - 1) + [0];
    }
  }

  // ---------- key, value and deletion records ----------

  /** A short key: type 1, the length, the offset of the value, 16 unused bytes, and the key padded with zeros. */
  lemma ShortKeyBytes(key: Key)
    requires |key| <= 65535
    ensures var s, len := EncodeKey(key), 24 + (|key| + 7) / 8 * 8;
      && |s| == len && s[0] as nat == 1
      && s == BytesOf(1, 1) + BytesOf(|key|, 2) + BytesOf(0, 1) + BytesOf(len, 4) + Zeros(16) + key
              + Zeros(len - 24 - |key|)
  {
    hide Be64, BytesOf;
    ShortFieldBytes(1, |key|, KeyLen(key));
    ZeroWord();
  }

  lemma ZeroWord()
    ensures Be64(0) == Zeros(8)
  {
    hide BytesOf;
    NoBits(8);
  }

  /** A long key: type 33, and the length and the offset of the value in a word each. */
  lemma LongKeyBytes(key: Key)
    requires Fits(key) && |key| > 65535
    ensures var s, len := EncodeKey(key), 24 + (|key| + 7) / 8 * 8;
      && |s| == len && s[0] as nat == 33
      && s == BytesOf(33, 1) + Zeros(7) + BytesOf(|key|, 8) + BytesOf(len, 8) + key + Zeros(len - 24 - |key|)
  {
    hide BytesOf;
    FieldBytes(33, 0, 0);
    NoBits(3);
    NoBits(4);
  }

  /** A short value: type 2, the length, and eight unused bytes. */
  lemma ShortValBytes(val: seq<Byte>)
    requires |val| <= 16777215
    ensures var s, len := EncodeVal(val), 16 + (|val| + 7) / 8 * 8;
      && |s| == len && s[0] as nat == 2
      && s == BytesOf(2, 1) + BytesOf(|val|, 3) + Zeros(12) + val + Zeros(len - 16 - |val|)
  {
    hide Be64, BytesOf;
    FieldBytes(2, |val|, 0);
    ZeroWord();
    NoBits(4);
  }

  /** A long value: type 34, and the length in a word. */
  lemma LongValBytes(val: seq<Byte>)
    requires Fits(val) && |val| > 16777215
    ensures var s, len := EncodeVal(val), 16 + (|val| + 7) / 8 * 8;
      && |s| == len && s[0] as nat == 34
      && s == BytesOf(34, 1) + Zeros(7) + BytesOf(|val|, 8) + val + Zeros(len - 16 - |val|)
  {
    hide BytesOf;
    FieldBytes(34, 0, 0);
    NoBits(3);
    NoBits(4);
  }

  lemma MoreZeros(s: seq<Byte>, m: nat, n: nat)
    ensures s + Zeros(m) + Zeros(n) == s + Zeros(m + n)
  {
  }

  lemma TailZeros(s: seq<Byte>)
    ensures s + BytesOf(0, 1) + BytesOf(0, 4) + Be64(0) + Be64(0) == s + Zeros(21)
  {
    hide BytesOf, Be64;
    NoBits(1);
    NoBits(4);
    ZeroWord();
    MoreZeros(s, 1, 4);
    MoreZeros(s, 5, 8);
    MoreZeros(s, 13, 8);
  }

  lemma ShortDeleteHead(key: Key)
    requires |key| <= 65535
    ensures Be64(DeleteWord(key)) + Be64(0) + Be64(0) == BytesOf(64, 1) + BytesOf(|key|, 2) + Zeros(21)
    ensures Be64(DeleteWord(key))[0] as nat == 64
  {
    hide Be64, BytesOf, Zeros;
    ShortFieldBytes(64, |key|, 0);
    TailZeros(BytesOf(64, 1) + BytesOf(|key|, 2));
  }

  /** A short deletion: type 64, the length, and 21 unused bytes. */
  lemma ShortDeleteBytes(key: Key)
    requires |key| <= 65535
    ensures var s, pad := EncodeDelete(key), (|key| + 7) / 8 * 8 - |key|;
      s[0] as nat == 64 && s == BytesOf(64, 1) + BytesOf(|key|, 2) + Zeros(21) + key + Zeros(pad)
  {
    hide Be64, BytesOf, DeleteWord, Zeros;
    ShortDeleteHead(key);
  }

  /** A long deletion: no type, and the length in a word. */
  lemma LongDeleteBytes(key: Key)
    requires Fits(key) && |key| > 65535
    ensures var s, pad := EncodeDelete(key), (|key| + 7) / 8 * 8 - |key|;
      s[0] as nat == 0 && s == Zeros(8) + BytesOf(|key|, 8) + Zeros(8) + key + Zeros(pad)
  {
    hide Be64, BytesOf;
    ZeroWord();
    LongWord(|key|);
  }

  lemma LongWord(w: Word)
    ensures Be64(w) == BytesOf(w, 8)
  {
  }

  // ---------- commits ----------

  /** A short commit: type 4, or 16 for a final one, the length, and the CRC. */
  lemma CommitBytes(length: nat, crc: nat)
    requires length <= 16777215 && crc < 0x1_0000_0000
    ensures EncodeCommit(COMMIT, length, crc) == BytesOf(4, 1) + BytesOf(length, 3) + BytesOf(crc, 4)
    ensures EncodeCommit(FINAL, length, crc) == BytesOf(16, 1) + BytesOf(length, 3) + BytesOf(crc, 4)
    ensures EncodeCommit(COMMIT, length, crc)[0] as nat == 4 && EncodeCommit(FINAL, length, crc)[0] as nat == 16
  {
    hide Be64, BytesOf;
    FieldBytes(4, length, crc);
    FieldBytes(16, length, crc);
  }

  /** A long commit: type 36, or 48 for a final one, the length, type 8, and the CRC. */
  lemma LongCommitBytes(length: Word, crc: nat)
    requires crc < 0x1_0000_0000
    ensures EncodeLongCommit(LONG_COMMIT, length, crc)
         == BytesOf(36, 1) + Zeros(7) + BytesOf(length, 8) + BytesOf(8, 1) + Zeros(3) + BytesOf(crc, 4)
    ensures EncodeLongCommit(LONG_FINAL, length, crc)
         == BytesOf(48, 1) + Zeros(7) + BytesOf(length, 8) + BytesOf(8, 1) + Zeros(3) + BytesOf(crc, 4)
    ensures EncodeLongCommit(LONG_COMMIT, length, crc)[0] as nat == 36
    ensures EncodeLongCommit(LONG_FINAL, length, crc)[0] as nat == 48
  {
    hide BytesOf;
    FieldBytes(36, 0, 0);
    FieldBytes(48, 0, 0);
    FieldBytes(8, 0, crc);
    NoBits(3);
    NoBits(4);
  }

  /** Which of them a commit is, after data. */
  lemma CommitForType(data: seq<Byte>, final: bool)
    requires |data| < TWO_64
    ensures CommitFor(data, final)[0] as nat
         == if |data| <= 16777215 then (if final then 16 else 4) else if final then 48 else 36
  {
    hide EncodeCommit, EncodeLongCommit, CommitCrc, LongCommitCrc;
    if |data| <= 16777215 {
      CommitBytes(|data|, CommitCrc(data, CommitWord(if final then FINAL else COMMIT, |data|)));
    } else {
      LongCommitBytes(|data|, LongCommitCrc(data, if final then LONG_FINAL else LONG_COMMIT, |data|));
    }
  }
}
