/** Filling the record buffers of a ZIP file field by field. */
module ZipRecords {
  import opened ByteStrings
  import opened ZipNames
  import opened ZipFormat

  method PutU16(a: array<byte>, p: nat, v: u16)
    requires p + 2 <= a.Length
    modifies a
    ensures a[..p + 2] == old(a[..p]) + U16Bytes(v)
  {
    LowBytes(v);
    a[p], a[p + 1] := v % 0x100, v / 0x100;
    assert a[..p] == old(a[..p]);
  }

  method PutU32(a: array<byte>, p: nat, v: u32)
    requires p + 4 <= a.Length
    modifies a
    ensures a[..p + 4] == old(a[..p]) + U32Bytes(v)
  {
    LowBytes(v);
    a[p], a[p + 1], a[p + 2], a[p + 3] := v % 0x100, v / 0x100 % 0x100, v / 0x1_0000 % 0x100, v / 0x100_0000;
    assert a[..p] == old(a[..p]);
  }

  method PutSignature(a: array<byte>, x: byte, y: byte)
    requires 4 <= a.Length
    modifies a
    ensures a[..4] == [0x50, 0x4B, x, y]
  {
    a[0], a[1], a[2], a[3] := 0x50, 0x4B, x, y;
  }

  /** The fields both headers share, from position p on. */
  method PutMeta(a: array<byte>, p: nat, e: Entry)
    requires p + 26 <= a.Length && Fits(e)
    modifies a
    ensures a[..p + 26] == old(a[..p]) + MetaBytes(MetaOf(e))
  {
    hide U16Bytes, U32Bytes, GpFlags;
    ghost var start := a[..p];
    PutU16(a, p, 20);
    PutU16(a, p + 2, GpFlags(e.name));
    PutU16(a, p + 4, e.packing);
    PutU16(a, p + 6, 0);
    PutU16(a, p + 8, 0x21);
    ghost var first := U16Bytes(20) + U16Bytes(GpFlags(e.name)) + U16Bytes(e.packing) + U16Bytes(0) + U16Bytes(0x21);
    assert a[..p + 10] == start + first;
    PutU32(a, p + 10, e.crc);
    PutU32(a, p + 14, e.csize);
    PutU32(a, p + 18, e.usize);
    ghost var second := U32Bytes(e.crc) + U32Bytes(e.csize) + U32Bytes(e.usize);
    assert a[..p + 22] == start + first + second;
    PutU16(a, p + 22, |e.name|);
    PutU16(a, p + 24, 0);
    assert a[..p + 26] == start + (first + second + (U16Bytes(|e.name|) + U16Bytes(0)));
  }

  method BuildLfh(e: Entry) returns (a: array<byte>)
    requires Fits(e)
    ensures fresh(a) && a[..] == LfhBytes(e)
  {
    hide MetaBytes, MetaOf;
    a := new byte[LFH_SIZE];
    PutSignature(a, 3, 4);
    PutMeta(a, 4, e);
    assert a[..] == a[..30];
  }

  method BuildCdr(e: Entry) returns (a: array<byte>)
    requires Fits(e)
    ensures fresh(a) && a[..] == CdrBytes(e)
  {
    hide MetaBytes, MetaOf, U16Bytes, U32Bytes;
    a := new byte[CDR_SIZE];
    PutSignature(a, 1, 2);
    PutU16(a, 4, 20);
    PutMeta(a, 6, e);
    ghost var start := a[..32];
    PutU16(a, 32, 0);
    PutU16(a, 34, 0);
    PutU16(a, 36, 0);
    PutU32(a, 38, 0);
    PutU32(a, 42, e.lfh);
    assert a[..46] == start + (U16Bytes(0) + U16Bytes(0) + U16Bytes(0) + U32Bytes(0) + U32Bytes(e.lfh));
    assert a[..] == a[..46];
  }

  method BuildEocd(cdrOffset: u32, cdrSize: u32, count: u16) returns (a: array<byte>)
    ensures fresh(a) && a[..] == EocdBytes(cdrOffset, cdrSize, count)
  {
    hide U16Bytes, U32Bytes;
    a := new byte[EOCD_SIZE];
    PutSignature(a, 5, 6);
    PutU16(a, 4, 0);
    PutU16(a, 6, 0);
    PutU16(a, 8, count);
    PutU16(a, 10, count);
    ghost var start := a[..12];
    PutU32(a, 12, cdrSize);
    PutU32(a, 16, cdrOffset);
    PutU16(a, 20, 0);
    assert a[..22] == start + (U32Bytes(cdrSize) + U32Bytes(cdrOffset) + U16Bytes(0));
    assert a[..] == a[..22];
  }
}
