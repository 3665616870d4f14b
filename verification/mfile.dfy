/** A mapped file: a buffer that grows under writes, with CRC accounting. */
module MFile {
  import opened Bytes
  import opened Words
  import C = Crc32c
  import Fast = Crc32cFast

  datatype Status = Done | Einval | Espipe

  /** What a write at offset leaves: a gap before it is filled with zeros. */
  ghost function Overwritten(buf: seq<Byte>, offset: nat, ibuf: seq<Byte>): (r: seq<Byte>)
    ensures |r| == if |buf| < offset + |ibuf| then offset + |ibuf| else |buf|
  {
    var grown := if |buf| < offset + |ibuf| then buf + Zeros(offset + |ibuf| - |buf|) else buf;
    grown[..offset] + ibuf + grown[offset + |ibuf|..]
  }

  /** Each byte after a write: what was written, what was there, or zero in a gap. */
  lemma OverwrittenAt(buf: seq<Byte>, offset: nat, ibuf: seq<Byte>, i: nat)
    requires i < |Overwritten(buf, offset, ibuf)|
    ensures Overwritten(buf, offset, ibuf)[i]
         == if offset <= i < offset + |ibuf| then ibuf[i - offset] else if i < |buf| then buf[i] else 0
  {
  }

  class MFile {
    var buf: seq<Byte>
    var offset: nat
    var computeCrc: bool
    var crc32: C.Word32
    var crcBegin: nat
    var crcLen: nat

    /** Maps a file with the given contents. */
    constructor (buf: seq<Byte>)
      ensures this.buf == buf && offset == 0 && !computeCrc && crc32 == 0 && crcBegin == 0 && crcLen == 0
    {
      this.buf, offset, computeCrc, crc32, crcBegin, crcLen := buf, 0, false, 0, 0, 0;
    }

    /** While the CRC is on, the data length is the distance from where it began. */
    ghost predicate Accounted()
      reads this
    {
      if computeCrc then crcBegin <= offset && crcLen == offset - crcBegin && crc32 == C.Crc(0, []) else crcLen == 0
    }

    method Write(ibuf: seq<Byte>)
      modifies this
      ensures buf == Overwritten(old(buf), old(offset), ibuf)
      ensures offset == old(offset) + |ibuf|
      ensures computeCrc == old(computeCrc) && crc32 == old(crc32) && crcBegin == old(crcBegin)
      ensures crcLen == old(crcLen) + if computeCrc then |ibuf| else 0
      ensures old(Accounted()) ==> Accounted()
      ensures old(offset) == |old(buf)| ==> buf == old(buf) + ibuf && offset == |buf|
    {
      if |buf| < offset + |ibuf| {
        buf := buf + Zeros(offset + |ibuf| - |buf|);
      }
      if |ibuf| > 0 {
        buf := buf[..offset] + ibuf + buf[offset + |ibuf|..];
        offset := offset + |ibuf|;
      }
      if computeCrc {
        crcLen := crcLen + |ibuf|;
      }
      assert ibuf == [] ==> buf[..offset] + ibuf + buf[offset..] == buf;
    }

    method Seek(offset: nat) returns (r: Status)
      modifies this`offset
      ensures r == if |buf| == 0 then Einval else if offset > |buf| then Espipe else Done
      ensures this.offset == if r == Done then offset else old(this.offset)
    {
      if |buf| == 0 {
        return Einval;
      }
      if offset > |buf| {
        return Espipe;
      }
      this.offset := offset;
      r := Done;
    }

    /** Cuts the file, or lengthens it with zeros; the offset stays. */
    method Truncate(len: nat) returns (r: Status)
      modifies this`buf
      ensures r == if |old(buf)| == 0 then Einval else Done
      ensures r == Done && len <= |old(buf)| ==> buf == old(buf)[..len]
      ensures r == Done && len > |old(buf)| ==> buf == old(buf) + Zeros(len - |old(buf)|)
      ensures r == Einval ==> buf == old(buf)
    {
      if |buf| == 0 {
        return Einval;
      }
      buf := if len <= |buf| then buf[..len] else buf + Zeros(len - |buf|);
      r := Done;
    }

    method CrcStart()
      modifies this`computeCrc, this`crc32, this`crcBegin, this`crcLen
      ensures Accounted() && computeCrc && crcBegin == offset
    {
      hide C.Xor, C.ByteIn;
      crc32 := C.Crc(0, []);
      computeCrc := true;
      crcBegin := offset;
      crcLen := 0;
    }

    /** Ends the computation: the CRC of what was written since it began. */
    method CrcEnd() returns (crc: C.Word32)
      requires Accounted() && offset <= |buf|
      modifies this`computeCrc, this`crc32, this`crcLen
      ensures crc == crc32 && !computeCrc && crcLen == 0
      ensures crc == if old(computeCrc) then C.Crc(C.Crc(0, []), buf[crcBegin..offset]) else old(crc32)
    {
      hide C.Crc;
      if computeCrc {
        crcLen := offset - crcBegin;
        var end := Fast.CrcHw(crc32, buf[crcBegin..crcBegin + crcLen], crcBegin);
        crc32 := end;
        computeCrc := false;
        crcLen := 0;
      }
      crc := crc32;
    }
  }
}
