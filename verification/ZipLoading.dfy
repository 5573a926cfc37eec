/** Opening a ZIP file through a handle. */
module ZipLoading {
  import opened ByteStrings
  import opened Outcomes
  import opened ZipFormat
  import PakFormat
  import opened PakStates
  import opened PakCopying
  import PakLoading
  import Sorting
  import opened Disks

  /** Goes to a place and reads n bytes there. */
  method ReadAt(disk: Disk, h: Handle, at: nat, n: nat) returns (data: Option<seq<byte>>)
    requires disk.Valid() && disk.IsOpen(h)
    modifies disk`cursors, disk`trouble
    ensures disk.Valid() && SameHandles(old(disk.cursors), disk.cursors) && (old(disk.trouble) ==> disk.trouble)
    ensures var file := disk.files[disk.cursors[h].path];
            && (data.Some? ==> |data.value| == n && data.value == Slice(file, at, n) && (n > 0 ==> at + n <= |file|))
            && (data.None? ==> disk.trouble || at + n > |file|)
  {
    var ok := disk.Seek(h, at);
    if !ok { return None; }
    data := PakLoading.ReadExactly(disk, h, n);
  }

  /** Scans backwards for the end record. */
  method FindEnd(disk: Disk, h: Handle, size: nat) returns (s: Status, at: nat)
    requires disk.Valid() && disk.IsOpen(h) && size == |disk.files[disk.cursors[h].path]|
    modifies disk`cursors, disk`trouble
    ensures disk.Valid() && SameHandles(old(disk.cursors), disk.cursors) && (old(disk.trouble) ==> disk.trouble)
    ensures var found := FindEocd(disk.files[disk.cursors[h].path]);
            && (s == Ok ==> found == Some(at))
            && (s == FormatError ==> found.None?)
            && (s !in {Ok, FormatError} ==> s == IoError && disk.trouble)
  {
    hide ReadU16, ScanBack;
    at := 0;
    if size < EOCD_SIZE { return FormatError, at; }
    var scan := Min(size, SCAN_MAX);
    var start := size - scan;
    var read := ReadAt(disk, h, start, scan);
    if read.None? { return IoError, at; }
    var found := ScanBuffer(disk.files[disk.cursors[h].path], start, read.value);
    return if found.Some? then Ok else FormatError, if found.Some? then found.value else 0;
  }

  /** The backward scan over the bytes at the end of the file. */
  method ScanBuffer(ghost file: seq<byte>, start: nat, buf: seq<byte>) returns (at: Option<nat>)
    requires start + |buf| == |file| && |buf| >= EOCD_SIZE && file[start..start + |buf|] == buf
    ensures at == ScanBack(file, start, |buf| - EOCD_SIZE)
  {
    hide ReadU16, ScanBack;
    var i := |buf| - EOCD_SIZE;
    while i >= 0
      invariant -1 <= i <= |buf| - EOCD_SIZE && ScanBack(file, start, |buf| - EOCD_SIZE) == ScanBack(file, start, i)
    {
      ScanStep(file, start, i);
      InsideSlice(file, start, buf, i, 4);
      Inside16(file, start, buf, i + 20);
      if buf[i..i + 4] == EOCD_SIGNATURE && i + EOCD_SIZE + Field16(buf, i + 20) == |buf| {
        return Some(start + i);
      }
      i := i - 1;
    }
    ScanEnds(file, start);
    return None;
  }

  lemma ScanStep(file: seq<byte>, start: nat, i: nat)
    requires start <= |file| && i + EOCD_SIZE <= |file| - start
    ensures ScanBack(file, start, i) ==
      if file[start + i..start + i + 4] == EOCD_SIGNATURE
        && i + EOCD_SIZE + Field16(file, start + i + 20) == |file| - start
      then Some(start + i) else ScanBack(file, start, i - 1)
  {}

  lemma ScanEnds(file: seq<byte>, start: nat)
    requires start + EOCD_SIZE <= |file|
    ensures ScanBack(file, start, -1) == None
  {}

  /** Reads the end record and checks it. */
  method ValidateEocd(disk: Disk, h: Handle, at: nat) returns (r: Result<Eocd>)
    requires disk.Valid() && disk.IsOpen(h) && at + EOCD_SIZE <= |disk.files[disk.cursors[h].path]|
    modifies disk`cursors, disk`trouble
    ensures disk.Valid() && SameHandles(old(disk.cursors), disk.cursors) && (old(disk.trouble) ==> disk.trouble)
    ensures r == CheckEocd(disk.files[disk.cursors[h].path], at) || (r == Failure(IoError) && disk.trouble)
  {
    hide ReadU16, ReadU32;
    var read := ReadAt(disk, h, at, EOCD_SIZE);
    if read.None? { return Failure(IoError); }
    var eocd := read.value;
    EocdFields(disk.files[disk.cursors[h].path], at, eocd);
    var here, total, size, offset := Field16(eocd, 8), Field16(eocd, 10), Field32(eocd, 12), Field32(eocd, 16);
    if Field16(eocd, 4) != 0 || Field16(eocd, 6) != 0 { return Failure(Unsupported); }
    if here != total { return Failure(FormatError); }
    if total == U16_MAX || size == U32_MAX || offset == U32_MAX { return Failure(Unsupported); }
    if offset + size > at { return Failure(FormatError); }
    if total > PakFormat.MAX_ENTRIES { return Failure(LimitError); }
    return Success(Eocd(offset, size, total));
  }

  lemma EocdFields(file: seq<byte>, at: nat, eocd: seq<byte>)
    requires at + EOCD_SIZE <= |file| && |eocd| == EOCD_SIZE && file[at..at + EOCD_SIZE] == eocd
    ensures Field16(eocd, 4) == Field16(file, at + 4) && Field16(eocd, 6) == Field16(file, at + 6)
    ensures Field16(eocd, 8) == Field16(file, at + 8) && Field16(eocd, 10) == Field16(file, at + 10)
    ensures Field32(eocd, 12) == Field32(file, at + 12) && Field32(eocd, 16) == Field32(file, at + 16)
  {
    hide ReadU16, ReadU32;
    Inside16(file, at, eocd, 4);
    Inside16(file, at, eocd, 6);
    Inside16(file, at, eocd, 8);
    Inside16(file, at, eocd, 10);
    Inside32(file, at, eocd, 12);
    Inside32(file, at, eocd, 16);
  }

  // ----- The directory -----

  /** What has been parsed so far, followed by what is still to come. */
  function Followed(done: seq<Entry>, rest: Result<(seq<Entry>, nat)>): Result<(seq<Entry>, nat)> {
    match rest
    case Success(r) => Success((done + r.0, r.1))
    case Failure(s) => Failure(s)
  }

  /** Parses n records of the directory in memory. */
  method ParseRecords(disk: Disk, cdr: seq<byte>, n: nat) returns (r: Result<(seq<Entry>, nat)>)
    modifies disk`trouble
    ensures old(disk.trouble) ==> disk.trouble
    ensures r == ParseCdr(cdr, 0, n) || (r == Failure(NoMemory) && disk.trouble)
  {
    hide CheckRecord, NameOf;
    var entries: seq<Entry>, p := [], 0;
    FollowedByAll(ParseCdr(cdr, 0, n));
    for i := 0 to n
      invariant old(disk.trouble) ==> disk.trouble
      invariant 0 <= p && ParseCdr(cdr, 0, n) == Followed(entries, ParseCdr(cdr, p, n - i))
    {
      var rec := CheckRecord(cdr, p);
      if rec.Failure? { return Failure(rec.status); }
      var m := rec.value.meta;
      if !rec.value.directory {
        var haveMemory := disk.Works();
        if !haveMemory { return Failure(NoMemory); }
        var name := NameOf(cdr[p + CDR_SIZE..p + CDR_SIZE + m.nameLen], m.flags);
        if name.Failure? { return Failure(name.status); }
        var e := Entry(name.value, m.packing, m.crc, m.csize, m.usize, rec.value.lfh, 0, rec.value.lfh, None, None);
        FollowedStep(entries, e, ParseCdr(cdr, p + rec.value.Length(), n - i - 1));
        entries := entries + [e];
      }
      p := p + rec.value.Length();
    }
    assert entries + [] == entries;
    return Success((entries, p));
  }

  lemma FollowedByAll(rest: Result<(seq<Entry>, nat)>)
    ensures Followed([], rest) == rest
  {
    if rest.Success? { assert [] + rest.value.0 == rest.value.0; }
  }

  lemma FollowedStep(done: seq<Entry>, e: Entry, rest: Result<(seq<Entry>, nat)>)
    ensures Followed(done, Followed([e], rest)) == Followed(done + [e], rest)
  {
    if rest.Success? { assert done + ([e] + rest.value.0) == done + [e] + rest.value.0; }
  }

  /** Reads a local header and checks it against the directory. */
  method ValidateLfh(disk: Disk, h: Handle, e: Entry, cdrOffset: nat) returns (r: Result<Entry>)
    requires disk.Valid() && disk.IsOpen(h)
    modifies disk`cursors, disk`trouble
    ensures disk.Valid() && SameHandles(old(disk.cursors), disk.cursors) && (old(disk.trouble) ==> disk.trouble)
    ensures r == CheckLfh(disk.files[disk.cursors[h].path], e, cdrOffset) || (r == Failure(IoError) && disk.trouble)
  {
    hide ReadU16, ReadU32;
    var read := ReadAt(disk, h, e.lfh, LFH_SIZE);
    if read.None? { return Failure(IoError); }
    var lfh := read.value;
    InsideSlice(disk.files[disk.cursors[h].path], e.lfh, lfh, 0, 4);
    SameMeta(disk.files[disk.cursors[h].path], e.lfh, lfh);
    if lfh[0..4] != LFH_SIGNATURE { return Failure(FormatError); }
    var m := ReadMeta(lfh, 4);
    if m.flags % 2 == 1 { return Failure(Unsupported); }
    if m.flags / 8 % 2 == 1 { return Failure(Unsupported); }
    if m.packing != e.packing || m.crc != e.crc || m.csize != e.csize
      || m.usize != e.usize { return Failure(FormatError); }
    if e.packing == STORED && e.csize != e.usize { return Failure(FormatError); }
    var payload := e.lfh + LFH_SIZE + m.nameLen + m.extraLen;
    if payload > U32_MAX { return Failure(FormatError); }
    if payload + e.csize > cdrOffset { return Failure(FormatError); }
    return Success(e.(payload := payload, offset := payload));
  }

  lemma SameMeta(file: seq<byte>, at: nat, lfh: seq<byte>)
    requires at + LFH_SIZE <= |file| && |lfh| == LFH_SIZE && file[at..at + LFH_SIZE] == lfh
    ensures ReadMeta(lfh, 4) == ReadMeta(file, at + 4)
  {
    hide ReadU16, ReadU32;
    Inside16(file, at, lfh, 6);
    Inside16(file, at, lfh, 8);
    Inside32(file, at, lfh, 14);
    Inside32(file, at, lfh, 18);
    Inside32(file, at, lfh, 22);
    Inside16(file, at, lfh, 26);
    Inside16(file, at, lfh, 28);
  }

  function After(done: seq<Entry>, rest: Result<seq<Entry>>): Result<seq<Entry>> {
    match rest
    case Success(r) => Success(done + r)
    case Failure(s) => Failure(s)
  }

  lemma AfterStep(done: seq<Entry>, e: Entry, rest: Result<seq<Entry>>)
    ensures After(done, After([e], rest)) == After(done + [e], rest) && After([], rest) == rest
  {
    if rest.Success? {
      assert done + ([e] + rest.value) == done + [e] + rest.value && [] + rest.value == rest.value;
    }
  }

  /** The second pass: every entry's local header, in order. */
  method ValidateLfhs(disk: Disk, h: Handle, parsed: seq<Entry>, cdrOffset: nat) returns (r: Result<seq<Entry>>)
    requires disk.Valid() && disk.IsOpen(h)
    modifies disk`cursors, disk`trouble
    ensures disk.Valid() && SameHandles(old(disk.cursors), disk.cursors) && (old(disk.trouble) ==> disk.trouble)
    ensures r == CheckLfhs(disk.files[disk.cursors[h].path], parsed, cdrOffset)
      || (r == Failure(IoError) && disk.trouble)
  {
    hide CheckLfh;
    ghost var file := disk.files[disk.cursors[h].path];
    var entries: seq<Entry> := [];
    assert parsed[0..] == parsed;
    AfterStep([], Entry([], 0, 0, 0, 0, 0, 0, 0, None, None), CheckLfhs(file, parsed, cdrOffset));
    for k := 0 to |parsed|
      invariant disk.Valid() && SameHandles(old(disk.cursors), disk.cursors) && (old(disk.trouble) ==> disk.trouble)
      invariant CheckLfhs(file, parsed, cdrOffset) == After(entries, CheckLfhs(file, parsed[k..], cdrOffset))
    {
      assert parsed[k..][0] == parsed[k] && parsed[k..][1..] == parsed[k + 1..];
      var e := ValidateLfh(disk, h, parsed[k], cdrOffset);
      if e.Failure? { return Failure(e.status); }
      AfterStep(entries, e.value, CheckLfhs(file, parsed[k + 1..], cdrOffset));
      entries := entries + [e.value];
    }
    assert entries + [] == entries;
    return Success(entries);
  }

  /** Reads the directory as a whole, parses it, and checks the local headers. */
  method LoadDirectory(disk: Disk, h: Handle, d: Eocd) returns (r: Result<seq<Entry>>)
    requires disk.Valid() && disk.IsOpen(h) && d.cdrOffset + d.cdrSize <= |disk.files[disk.cursors[h].path]|
    modifies disk`cursors, disk`trouble
    ensures disk.Valid() && SameHandles(old(disk.cursors), disk.cursors) && (old(disk.trouble) ==> disk.trouble)
    ensures r == LoadCdr(disk.files[disk.cursors[h].path], d)
      || (r.Failure? && r.status in {IoError, NoMemory} && disk.trouble)
  {
    hide ParseCdr, CheckLfhs;
    if d.count == 0 && d.cdrSize == 0 { return Success([]); }
    if (d.count == 0) != (d.cdrSize == 0) { return Failure(FormatError); }
    if d.cdrSize > MAX_CDR { return Failure(LimitError); }
    var haveMemory := disk.Works();
    if !haveMemory { return Failure(NoMemory); }
    var cdr := ReadAt(disk, h, d.cdrOffset, d.cdrSize);
    if cdr.None? { return Failure(IoError); }
    var parsed := ParseRecords(disk, cdr.value, d.count);
    if parsed.Failure? { return Failure(parsed.status); }
    if parsed.value.1 != d.cdrSize { return Failure(FormatError); }
    r := ValidateLfhs(disk, h, parsed.value.0, d.cdrOffset);
  }

  /** No two entries have one name. */
  method ValidateNames(disk: Disk, entries: seq<Entry>) returns (s: Status)
    modifies disk`trouble
    ensures (old(disk.trouble) ==> disk.trouble) && (s == NoMemory ==> disk.trouble) && s in {Ok, Duplicate, NoMemory}
    ensures s != NoMemory ==> (s == Ok <==> DistinctNames(entries))
  {
    hide Sorting.Distinct;
    if |entries| <= 1 { return Ok; }
    var haveMemory := disk.Works();
    if !haveMemory { return NoMemory; }
    var twice := PakLoading.HasDuplicates(Names(entries));
    NamesDistinct(entries);
    return if twice then Duplicate else Ok;
  }

  function Names(entries: seq<Entry>): (n: seq<seq<int>>)
    ensures |n| == |entries| && forall i :: 0 <= i < |n| ==> n[i] == entries[i].name
  {
    seq(|entries|, i requires 0 <= i < |entries| => entries[i].name)
  }

  lemma NamesDistinct(entries: seq<Entry>)
    ensures Sorting.Distinct(Names(entries)) <==> DistinctNames(entries)
  {}

  /** Opens the file: what comes out is what the file says, or a failure of the system. */
  method OpenFile(disk: Disk, h: Handle, size: nat) returns (r: Result<Opened>)
    requires disk.Valid() && disk.IsOpen(h) && size == |disk.files[disk.cursors[h].path]|
    modifies disk`cursors, disk`trouble
    ensures disk.Valid() && SameHandles(old(disk.cursors), disk.cursors) && (old(disk.trouble) ==> disk.trouble)
    ensures r == Load(disk.files[disk.cursors[h].path])
      || (r.Failure? && r.status in {IoError, NoMemory} && disk.trouble)
  {
    hide FindEocd, CheckEocd, LoadCdr, DistinctNames;
    var s, at := FindEnd(disk, h, size);
    if s != Ok { return Failure(s); }
    var d := ValidateEocd(disk, h, at);
    if d.Failure? { return Failure(d.status); }
    var entries := LoadDirectory(disk, h, d.value);
    if entries.Failure? { return Failure(entries.status); }
    s := ValidateNames(disk, entries.value);
    if s != Ok { return Failure(s); }
    return Success(Opened(entries.value, d.value.cdrOffset));
  }
}
