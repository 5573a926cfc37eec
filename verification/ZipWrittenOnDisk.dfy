/** The records that a ZIP commit writes, field by field at the places the PKWARE APPNOTE gives them. */
module ZipWrittenOnDisk {
  import opened ByteStrings
  import opened PakOnDisk
  import opened ZipOnDisk
  import opened ZipFormat
  import opened ZipNames
  import Utf8

  lemma HalfAt(s: seq<byte>, p: nat, v: u16)
    requires p + 2 <= |s| && s[p..p + 2] == U16Bytes(v)
    ensures Half(s, p) == v
  {
    LowBytes(v);
    var t := s[p..p + 2];
    assert t[0] == s[p] && t[1] == s[p + 1];
  }

  /** A name is marked as UTF-8 by bit 11 alone, if it is UTF-8 and not ASCII; no other flag is ever set. */
  lemma FlagsExactly(name: seq<byte>)
    ensures GpFlags(name) == if (exists b <- name :: b >= 0x80) && Utf8.WellFormed(name) then 2048 else 0
  {}

  /** Version 2.0, the flags, the method, midnight on the first of January 1980, checksum, sizes, the length of the
      name, and no extra field. */
  predicate Common(s: seq<byte>, p: nat, e: Entry)
    requires p + 26 <= |s|
  {
    && Half(s, p) == 20 && Half(s, p + 2) == GpFlags(e.name) as int && Half(s, p + 4) == e.packing
    && Half(s, p + 6) == 0 && Half(s, p + 8) == 33
    && Word(s, p + 10) == e.crc && Word(s, p + 14) == e.csize && Word(s, p + 18) == e.usize
    && Half(s, p + 22) == |e.name| && Half(s, p + 24) == 0
  }

  lemma MetaSays(e: Entry)
    requires Fits(e)
    ensures Common(MetaBytes(MetaOf(e)), 0, e)
  {
    hide U16Bytes, U32Bytes, Half, Word, GpFlags;
    var m := MetaOf(e);
    var s := MetaBytes(m);
    var a := U16Bytes(20) + U16Bytes(m.flags) + U16Bytes(m.packing) + U16Bytes(0) + U16Bytes(0x21);
    var b := U32Bytes(m.crc) + U32Bytes(m.csize) + U32Bytes(m.usize);
    var c := U16Bytes(m.nameLen) + U16Bytes(m.extraLen);
    assert s[0..2] == a[0..2] == U16Bytes(20) && s[2..4] == a[2..4] == U16Bytes(m.flags);
    assert s[4..6] == a[4..6] == U16Bytes(m.packing) && s[6..8] == a[6..8] == U16Bytes(0);
    assert s[8..10] == a[8..10] == U16Bytes(0x21);
    assert s[10..14] == b[0..4] == U32Bytes(m.crc) && s[14..18] == b[4..8] == U32Bytes(m.csize)
        && s[18..22] == b[8..12] == U32Bytes(m.usize);
    assert s[22..24] == c[0..2] == U16Bytes(m.nameLen) && s[24..26] == c[2..4] == U16Bytes(m.extraLen);
    HalfAt(s, 0, 20);
    HalfAt(s, 2, m.flags);
    HalfAt(s, 4, m.packing);
    HalfAt(s, 6, 0);
    HalfAt(s, 8, 0x21);
    WordAt(s, 10, m.crc);
    WordAt(s, 14, m.csize);
    WordAt(s, 18, m.usize);
    HalfAt(s, 22, m.nameLen);
    HalfAt(s, 24, m.extraLen);
  }

  lemma CommonInside(s: seq<byte>, p: nat, e: Entry)
    requires Fits(e) && p + 26 <= |s| && s[p..p + 26] == MetaBytes(MetaOf(e))
    ensures Common(s, p, e)
  {
    hide Half, Word, MetaBytes, GpFlags;
    MetaSays(e);
    FieldShift(s, p, 26, 0);
    FieldShift(s, p, 26, 2);
    FieldShift(s, p, 26, 4);
    FieldShift(s, p, 26, 6);
    FieldShift(s, p, 26, 8);
    FieldShift(s, p, 26, 10);
    FieldShift(s, p, 26, 14);
    FieldShift(s, p, 26, 18);
    FieldShift(s, p, 26, 22);
    FieldShift(s, p, 26, 24);
  }

  /** A local file header (section 4.3.7). */
  lemma LocalHeaderSays(e: Entry)
    requires Fits(e)
    ensures var s := LfhBytes(e); |s| == 30 && Marks(s, 0, 3, 4) && Common(s, 4, e)
  {
    hide MetaBytes, Common;
    var s := LfhBytes(e);
    assert s[4..4 + 26] == MetaBytes(MetaOf(e));
    CommonInside(s, 4, e);
  }

  /** A central directory record (section 4.3.12): no comment, the first disk, no attributes, and where the local
      header is. */
  lemma RecordSays(e: Entry)
    requires Fits(e)
    ensures var s := CdrBytes(e);
            && |s| == 46 && Marks(s, 0, 1, 2) && Half(s, 4) == 20 && Common(s, 6, e)
            && Half(s, 32) == 0 && Half(s, 34) == 0 && Half(s, 36) == 0 && Word(s, 38) == 0 && Word(s, 42) == e.lfh
  {
    hide MetaBytes, U16Bytes, U32Bytes, Common, Half, Word;
    var s := CdrBytes(e);
    var z := U16Bytes(0) + U16Bytes(0) + U16Bytes(0) + U32Bytes(0) + U32Bytes(e.lfh);
    assert s[6..6 + 26] == MetaBytes(MetaOf(e)) && s[4..6] == U16Bytes(20);
    assert s[32..34] == z[0..2] == U16Bytes(0) && s[34..36] == z[2..4] == U16Bytes(0);
    assert s[36..38] == z[4..6] == U16Bytes(0) && s[38..42] == z[6..10] == U32Bytes(0);
    assert s[42..46] == z[10..14] == U32Bytes(e.lfh);
    CommonInside(s, 6, e);
    HalfAt(s, 4, 20);
    HalfAt(s, 32, 0);
    HalfAt(s, 34, 0);
    HalfAt(s, 36, 0);
    WordAt(s, 38, 0);
    WordAt(s, 42, e.lfh);
  }

  /** The end record (section 4.3.16): one disk, the count twice, size and place of the directory, no comment. */
  lemma EndSays(place: u32, size: u32, count: u16)
    ensures var s := EocdBytes(place, size, count);
            && |s| == 22 && Marks(s, 0, 5, 6) && Half(s, 4) == 0 && Half(s, 6) == 0
            && Half(s, 8) == count && Half(s, 10) == count && Word(s, 12) == size && Word(s, 16) == place
            && Half(s, 20) == 0
  {
    hide U16Bytes, U32Bytes, Half, Word;
    var s := EocdBytes(place, size, count);
    assert s[4..6] == U16Bytes(0) && s[6..8] == U16Bytes(0);
    assert s[8..10] == U16Bytes(count) && s[10..12] == U16Bytes(count);
    assert s[12..16] == U32Bytes(size) && s[16..20] == U32Bytes(place) && s[20..22] == U16Bytes(0);
    HalfAt(s, 4, 0);
    HalfAt(s, 6, 0);
    HalfAt(s, 8, count);
    HalfAt(s, 10, count);
    WordAt(s, 12, size);
    WordAt(s, 16, place);
    HalfAt(s, 20, 0);
  }
}
