/** The ZIP container: local headers, central directory and end record (sections 4.3.7, 4.3.12 and
    4.3.16 of the PKWARE APPNOTE), and what opening a file accepts. */
module ZipFormat {
  import opened ByteStrings
  import opened Outcomes
  import PakFormat
  import opened ZipNames

  const LFH_SIZE := 30
  const CDR_SIZE := 46
  const EOCD_SIZE := 22
  const SCAN_MAX := 65557
  const MAX_CDR := 64 * 1024 * 1024

  const LFH_SIGNATURE: seq<byte> := [0x50, 0x4B, 3, 4]
  const CDR_SIGNATURE: seq<byte> := [0x50, 0x4B, 1, 2]
  const EOCD_SIGNATURE: seq<byte> := [0x50, 0x4B, 5, 6]

  const STORED: u16 := 0
  const DEFLATED: u16 := 8

  /** An entry in memory: what the records say, where they are, and what is still staged. */
  datatype Entry = Entry(name: seq<byte>, packing: u16, crc: u32, csize: nat, usize: nat, lfh: nat, payload: nat,
                         offset: nat,
                         source: Option<string>, data: Option<seq<byte>>)
  {
    predicate Staged() { source.Some? || data.Some? }

    /** What the file keeps of it. */
    function Recorded(): Entry {
      this.(source := None, data := None)
    }

    /** The room its header, name and payload take. */
    function Extent(): nat {
      LFH_SIZE + |name| + csize
    }
  }

  function Field16(s: seq<byte>, p: nat): u16
    requires p + 2 <= |s|
  {
    ReadU16(s[p..p + 2])
  }

  function Field32(s: seq<byte>, p: nat): u32
    requires p + 4 <= |s|
  {
    ReadU32(s[p..p + 4])
  }

  // ----- The fields both headers share -----

  datatype Meta = Meta(flags: u16, packing: u16, crc: u32, csize: u32, usize: u32, nameLen: u16, extraLen: u16)

  /** Version needed, flags, method, a fixed time and date, checksum, sizes, name length and the length
      of the extra field. */
  function MetaBytes(m: Meta): (s: seq<byte>)
    ensures |s| == 26
  {
    (U16Bytes(20) + U16Bytes(m.flags) + U16Bytes(m.packing) + U16Bytes(0) + U16Bytes(0x21))
    + (U32Bytes(m.crc) + U32Bytes(m.csize) + U32Bytes(m.usize))
    + (U16Bytes(m.nameLen) + U16Bytes(m.extraLen))
  }

  function ReadMeta(s: seq<byte>, p: nat): Meta
    requires p + 26 <= |s|
  {
    Meta(Field16(s, p + 2), Field16(s, p + 4), Field32(s, p + 10), Field32(s, p + 14), Field32(s, p + 18),
         Field16(s, p + 22), Field16(s, p + 24))
  }

  lemma MetaBack(m: Meta)
    ensures ReadMeta(MetaBytes(m), 0) == m
  {
    hide ReadU16, ReadU32, U16Bytes, U32Bytes;
    var s := MetaBytes(m);
    var a := U16Bytes(20) + U16Bytes(m.flags) + U16Bytes(m.packing) + U16Bytes(0) + U16Bytes(0x21);
    var b := U32Bytes(m.crc) + U32Bytes(m.csize) + U32Bytes(m.usize);
    var c := U16Bytes(m.nameLen) + U16Bytes(m.extraLen);
    U16RoundTrip(m.flags);
    U16RoundTrip(m.packing);
    U32RoundTrip(m.crc);
    U32RoundTrip(m.csize);
    U32RoundTrip(m.usize);
    U16RoundTrip(m.nameLen);
    U16RoundTrip(m.extraLen);
    assert s[2..4] == a[2..4] == U16Bytes(m.flags) && s[4..6] == a[4..6] == U16Bytes(m.packing);
    assert s[10..14] == b[0..4] == U32Bytes(m.crc) && s[14..18] == b[4..8] == U32Bytes(m.csize)
        && s[18..22] == b[8..12] == U32Bytes(m.usize);
    assert s[22..24] == c[0..2] == U16Bytes(m.nameLen) && s[24..26] == c[2..4] == U16Bytes(m.extraLen);
  }

  /** Reading the shared fields out of a longer string. */
  lemma MetaInside(s: seq<byte>, p: nat, m: Meta)
    requires p + 26 <= |s| && s[p..p + 26] == MetaBytes(m)
    ensures ReadMeta(s, p) == m
  {
    hide ReadU16, ReadU32, MetaBytes;
    MetaBack(m);
    var t := MetaBytes(m);
    Inside16(s, p, t, 2);
    Inside16(s, p, t, 4);
    Inside32(s, p, t, 10);
    Inside32(s, p, t, 14);
    Inside32(s, p, t, 18);
    Inside16(s, p, t, 22);
    Inside16(s, p, t, 24);
  }

  lemma InsideSlice(s: seq<byte>, p: nat, t: seq<byte>, k: nat, n: nat)
    requires p + |t| <= |s| && s[p..p + |t|] == t && k + n <= |t|
    ensures s[p + k..p + k + n] == t[k..k + n]
  {
    var a, b := s[p + k..p + k + n], t[k..k + n];
    forall i | 0 <= i < n ensures a[i] == b[i] {
      assert s[p..p + |t|][k + i] == t[k + i];
    }
    assert a == b;
  }

  lemma Inside16(s: seq<byte>, p: nat, t: seq<byte>, k: nat)
    requires p + |t| <= |s| && s[p..p + |t|] == t && k + 2 <= |t|
    ensures Field16(s, p + k) == Field16(t, k)
  {
    InsideSlice(s, p, t, k, 2);
  }

  lemma Inside32(s: seq<byte>, p: nat, t: seq<byte>, k: nat)
    requires p + |t| <= |s| && s[p..p + |t|] == t && k + 4 <= |t|
    ensures Field32(s, p + k) == Field32(t, k)
  {
    InsideSlice(s, p, t, k, 4);
  }

  // ----- The records a commit writes -----

  /** The entry's numbers fit the fields of the records. */
  predicate Fits(e: Entry) {
    0 < |e.name| < NAME_BUFFER && e.csize <= U32_MAX && e.usize <= U32_MAX && e.lfh <= U32_MAX
  }

  function MetaOf(e: Entry): Meta
    requires Fits(e)
  {
    Meta(GpFlags(e.name), e.packing, e.crc, e.csize, e.usize, |e.name|, 0)
  }

  function LfhBytes(e: Entry): (s: seq<byte>)
    requires Fits(e)
    ensures |s| == LFH_SIZE
  {
    LFH_SIGNATURE + MetaBytes(MetaOf(e))
  }

  function CdrBytes(e: Entry): (s: seq<byte>)
    requires Fits(e)
    ensures |s| == CDR_SIZE
  {
    (CDR_SIGNATURE + U16Bytes(20)) + MetaBytes(MetaOf(e))
    + (U16Bytes(0) + U16Bytes(0) + U16Bytes(0) + U32Bytes(0) + U32Bytes(e.lfh))
  }

  function EocdBytes(cdrOffset: u32, cdrSize: u32, count: u16): (s: seq<byte>)
    ensures |s| == EOCD_SIZE
  {
    (EOCD_SIGNATURE + U16Bytes(0) + U16Bytes(0) + U16Bytes(count) + U16Bytes(count))
    + (U32Bytes(cdrSize) + U32Bytes(cdrOffset) + U16Bytes(0))
  }

  /** Reading back the fields of a central directory record. */
  lemma CdrBack(e: Entry)
    requires Fits(e)
    ensures var s := CdrBytes(e);
            && s[..4] == CDR_SIGNATURE && ReadMeta(s, 6) == MetaOf(e)
            && Field16(s, 32) == 0 && Field32(s, 38) == 0 && Field32(s, 42) == e.lfh
  {
    hide MetaBytes, ReadU16, ReadU32, U16Bytes, U32Bytes, GpFlags;
    var s, m := CdrBytes(e), MetaBytes(MetaOf(e));
    var z := U16Bytes(0) + U16Bytes(0) + U16Bytes(0) + U32Bytes(0) + U32Bytes(e.lfh);
    assert s[6..32] == m && s[..4] == CDR_SIGNATURE && s[32..46] == z;
    MetaInside(s, 6, MetaOf(e));
    U16RoundTrip(0);
    U32RoundTrip(0);
    U32RoundTrip(e.lfh);
    assert z[0..2] == U16Bytes(0) && z[6..10] == U32Bytes(0) && z[10..14] == U32Bytes(e.lfh);
    Inside16(s, 32, z, 0);
    Inside32(s, 32, z, 6);
    Inside32(s, 32, z, 10);
  }

  lemma LfhBack(e: Entry)
    requires Fits(e)
    ensures var s := LfhBytes(e); s[..4] == LFH_SIGNATURE && ReadMeta(s, 4) == MetaOf(e)
  {
    hide MetaBytes, ReadU16, ReadU32, GpFlags;
    var s := LfhBytes(e);
    assert s[4..30] == MetaBytes(MetaOf(e)) && s[..4] == LFH_SIGNATURE;
    MetaInside(s, 4, MetaOf(e));
  }

  lemma EocdBack(cdrOffset: u32, cdrSize: u32, count: u16)
    ensures var s := EocdBytes(cdrOffset, cdrSize, count);
            && s[..4] == EOCD_SIGNATURE && Field16(s, 4) == 0 && Field16(s, 6) == 0
            && Field16(s, 8) == count && Field16(s, 10) == count
            && Field32(s, 12) == cdrSize && Field32(s, 16) == cdrOffset && Field16(s, 20) == 0
  {
    hide ReadU16, ReadU32, U16Bytes, U32Bytes;
    var s := EocdBytes(cdrOffset, cdrSize, count);
    U16RoundTrip(0);
    U16RoundTrip(count);
    U32RoundTrip(cdrSize);
    U32RoundTrip(cdrOffset);
    assert s[..4] == EOCD_SIGNATURE && s[4..6] == U16Bytes(0) && s[6..8] == U16Bytes(0);
    assert s[8..10] == U16Bytes(count) && s[10..12] == U16Bytes(count);
    assert s[12..16] == U32Bytes(cdrSize) && s[16..20] == U32Bytes(cdrOffset) && s[20..22] == U16Bytes(0);
  }

  // ----- Opening: the end record -----

  /** The last place, not after i, where an end record starts whose comment ends the file. */
  function ScanBack(file: seq<byte>, start: nat, i: int): (at: Option<nat>)
    requires start <= |file| && i + EOCD_SIZE <= |file| - start
    ensures at.Some? ==> at.value + EOCD_SIZE <= |file|
    decreases i
  {
    if i < 0 then None
    else if file[start + i..start + i + 4] == EOCD_SIGNATURE
            && i + EOCD_SIZE + Field16(file, start + i + 20) == |file| - start
    then Some(start + i)
    else ScanBack(file, start, i - 1)
  }

  function FindEocd(file: seq<byte>): (at: Option<nat>)
    ensures at.Some? ==> at.value + EOCD_SIZE <= |file|
  {
    if |file| < EOCD_SIZE then None
    else
      var scan := Min(|file|, SCAN_MAX);
      ScanBack(file, |file| - scan, scan - EOCD_SIZE)
  }

  datatype Eocd = Eocd(cdrOffset: u32, cdrSize: u32, count: u16)

  function CheckEocd(file: seq<byte>, at: nat): (r: Result<Eocd>)
    requires at + EOCD_SIZE <= |file|
    ensures r != Failure(Ok) && (r.Success? ==> r.value.cdrOffset + r.value.cdrSize <= at)
  {
    var disk, cdrDisk, here, total := Field16(file, at + 4), Field16(file, at + 6), Field16(file, at + 8),
      Field16(file, at + 10);
    var size, offset := Field32(file, at + 12), Field32(file, at + 16);
    if disk != 0 || cdrDisk != 0 then Failure(Unsupported)
    else if here != total then Failure(FormatError)
    else if total == U16_MAX || size == U32_MAX || offset == U32_MAX then Failure(Unsupported)
    else if offset + size > at then Failure(FormatError)
    else if total > PakFormat.MAX_ENTRIES then Failure(LimitError)
    else Success(Eocd(offset, size, total))
  }

  // ----- Opening: the central directory -----

  datatype Record = Record(meta: Meta, commentLen: u16, lfh: u32, directory: bool)
  {
    function Length(): nat {
      CDR_SIZE + meta.nameLen + meta.extraLen + commentLen
    }
  }

  predicate Symlink(attributes: u32) { attributes / 0x1000_0000 == 0xA }

  /** One central directory record, checked field by field; a directory marker is told to the caller. */
  function CheckRecord(cdr: seq<byte>, p: nat): (r: Result<Record>)
    ensures r != Failure(Ok)
    ensures r.Success? ==> p + r.value.Length() <= |cdr| && 0 < r.value.meta.nameLen < NAME_BUFFER
  {
    if p + CDR_SIZE > |cdr| then Failure(FormatError)
    else if cdr[p..p + 4] != CDR_SIGNATURE then Failure(FormatError)
    else
      var m, comment, attributes, lfh := ReadMeta(cdr, p + 6), Field16(cdr, p + 32), Field32(cdr, p + 38),
        Field32(cdr, p + 42);
      if p + CDR_SIZE + m.nameLen + m.extraLen + comment > |cdr| then Failure(FormatError)
      else if m.flags % 2 == 1 then Failure(Unsupported)
      else if m.flags / 8 % 2 == 1 then Failure(Unsupported)
      else if m.csize == U32_MAX || m.usize == U32_MAX || lfh == U32_MAX then Failure(Unsupported)
      else if m.packing != STORED && m.packing != DEFLATED then Failure(Unsupported)
      else if m.nameLen == 0 then Failure(FormatError)
      else if m.nameLen >= NAME_BUFFER then Failure(LimitError)
      else if Symlink(attributes) then Failure(UnsafeName)
      else
        var name := cdr[p + CDR_SIZE..p + CDR_SIZE + m.nameLen];
        if Marker(name, m.usize, m.csize) then Success(Record(m, comment, lfh, true))
        else if exists b <- name :: Control(b) then Failure(FormatError)
        else Success(Record(m, comment, lfh, false))
  }

  /** A name with a slash at its end and nothing in it stands for a directory. */
  predicate Marker(name: seq<byte>, usize: nat, csize: nat)
    requires name != []
  {
    name[|name| - 1] == 0x2F && usize == 0 && csize == 0
  }

  function NameOf(raw: seq<byte>, flags: u16): (r: Result<seq<byte>>)
    ensures r != Failure(Ok)
  {
    match DecodeName(raw, flags, NAME_BUFFER)
    case Name(n) => Success(n)
    case TooLong => Failure(LimitError)
    case NotUtf8 => Failure(FormatError)
  }

  /** The entries of n records from position p on, without directory markers, and where they end. */
  function ParseCdr(cdr: seq<byte>, p: nat, n: nat): (r: Result<(seq<Entry>, nat)>)
    ensures r != Failure(Ok)
    decreases n
  {
    if n == 0 then Success(([], p))
    else
      var rec :- CheckRecord(cdr, p);
      if rec.directory then ParseCdr(cdr, p + rec.Length(), n - 1)
      else
        var m := rec.meta;
        var name :- NameOf(cdr[p + CDR_SIZE..p + CDR_SIZE + m.nameLen], m.flags);
        var rest :- ParseCdr(cdr, p + rec.Length(), n - 1);
        Success(([Entry(name, m.packing, m.crc, m.csize, m.usize, rec.lfh, 0, rec.lfh, None, None)] + rest.0, rest.1))
  }

  // ----- Opening: the local headers -----

  /** The local header agrees with the directory, and the payload ends before the directory. */
  function CheckLfh(file: seq<byte>, e: Entry, cdrOffset: nat): (r: Result<Entry>)
    ensures r != Failure(Ok)
  {
    if e.lfh + LFH_SIZE > |file| then Failure(IoError)
    else if file[e.lfh..e.lfh + 4] != LFH_SIGNATURE then Failure(FormatError)
    else
      var m := ReadMeta(file, e.lfh + 4);
      var payload := e.lfh + LFH_SIZE + m.nameLen + m.extraLen;
      if m.flags % 2 == 1 then Failure(Unsupported)
      else if m.flags / 8 % 2 == 1 then Failure(Unsupported)
      else if m.packing != e.packing || m.crc != e.crc || m.csize != e.csize
        || m.usize != e.usize then Failure(FormatError)
      else if e.packing == STORED && e.csize != e.usize then Failure(FormatError)
      else if payload > U32_MAX then Failure(FormatError)
      else if payload + e.csize > cdrOffset then Failure(FormatError)
      else Success(e.(payload := payload, offset := payload))
  }

  function CheckLfhs(file: seq<byte>, entries: seq<Entry>, cdrOffset: nat): (r: Result<seq<Entry>>)
    ensures r != Failure(Ok)
  {
    if entries == [] then Success([])
    else
      var e :- CheckLfh(file, entries[0], cdrOffset);
      var rest :- CheckLfhs(file, entries[1..], cdrOffset);
      Success([e] + rest)
  }

  predicate DistinctNames(entries: seq<Entry>) {
    forall i, j :: 0 <= i < j < |entries| ==> entries[i].name != entries[j].name
  }

  datatype Opened = Opened(entries: seq<Entry>, cdrOffset: nat)

  function LoadCdr(file: seq<byte>, d: Eocd): (r: Result<seq<Entry>>)
    requires d.cdrOffset + d.cdrSize <= |file|
    ensures r != Failure(Ok)
  {
    if d.count == 0 && d.cdrSize == 0 then Success([])
    else if (d.count == 0) != (d.cdrSize == 0) then Failure(FormatError)
    else if d.cdrSize > MAX_CDR then Failure(LimitError)
    else
      var parsed :- ParseCdr(file[d.cdrOffset..d.cdrOffset + d.cdrSize], 0, d.count);
      if parsed.1 != d.cdrSize then Failure(FormatError)
      else CheckLfhs(file, parsed.0, d.cdrOffset)
  }

  /** All of opening a ZIP file. */
  function Load(file: seq<byte>): (r: Result<Opened>)
    ensures r != Failure(Ok)
  {
    match FindEocd(file)
    case None => Failure(FormatError)
    case Some(at) =>
      var d :- CheckEocd(file, at);
      var entries :- LoadCdr(file, d);
      if !DistinctNames(entries) then Failure(Duplicate) else Success(Opened(entries, d.cdrOffset))
  }
}
