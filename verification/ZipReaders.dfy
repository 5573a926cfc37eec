/** Opening and reading the entries of ZIP archives. */
module ZipReaders {
  import opened ByteStrings
  import opened Outcomes
  import opened Deflate
  import opened Readers
  import opened ZipFormat
  import opened ZipImages
  import opened ZipCommitting
  import opened ZipMeanings
  import opened ZipArchives
  import opened Disks
  import PakReaders
  import Crc32

  /** What reading an entry delivers: a compressed payload unpacked, a stored one as far as its size says;
      a staged entry without a payload delivers nothing. */
  ghost predicate Delivers(c: Codec, files: Files, path: Path, e: Entry, content: seq<byte>) {
    var body := StoredBody(files, path, e);
    if e.Staged() && e.csize == 0 then content == []
    else if e.packing == DEFLATED then c.inflate(body, e.usize) == Some(content)
    else content <= body && |content| == e.usize
  }

  predicate OverCap(e: Entry, cap: nat) {
    cap > 0 && (e.usize > cap || e.csize > cap)
  }

  /** How opening an entry can end: entries above the cap or with a bad stream are refused; a source file may
      have become too short. */
  ghost predicate OpenVerdict(s: Status, c: Codec, files: Files, path: Path, e: Entry, cap: nat, trouble: bool) {
    var body := StoredBody(files, path, e);
    && s in {Ok, LimitError, FormatError, IoError, NoMemory, UnsafeName}
    && (s == Ok ==> !OverCap(e, cap))
    && (|| trouble || s == Ok
        || (s == LimitError && OverCap(e, cap))
        || (s == FormatError && e.packing == DEFLATED && c.inflate(body, e.usize).None?)
        || (s == IoError && e.source.Some? && |body| < e.csize))
  }

  /** Unpacks a payload that has been read. */
  method Unpack(disk: Disk, c: Codec, body: seq<byte>, size: nat) returns (s: Status, out: seq<byte>)
    modifies disk`trouble
    ensures old(disk.trouble) ==> disk.trouble
    ensures s == Ok ==> c.inflate(body, size) == Some(out)
    ensures s == Ok || (s == FormatError && c.inflate(body, size).None?) || (s == NoMemory && disk.trouble)
  {
    out := [];
    var haveMemory := disk.Works();
    if !haveMemory { return NoMemory, out; }
    var unpacked := c.inflate(body, size);
    if unpacked.None? { return FormatError, out; }
    return Ok, unpacked.value;
  }

  /** Fetches a staged payload, unpacked if it is compressed. */
  method OpenStaged(a: ZipArchive, e: Entry) returns (s: Status, content: seq<byte>)
    requires a.Valid() && e in a.entries && e.Staged() && !OverCap(e, a.maxDecompressed)
    modifies a.disk`cursors, a.disk`next, a.disk`trouble
    ensures a.Valid() && (old(a.disk.trouble) ==> a.disk.trouble)
    ensures s == Ok ==> Delivers(a.codec, a.disk.files, a.path, e, content)
    ensures OpenVerdict(s, a.codec, a.disk.files, a.path, e, a.maxDecompressed, a.disk.trouble)
  {
    hide ZipSound, ZipMeans, Recordable, Lossless;
    StagedEntry(a, e);
    content := [];
    if e.csize == 0 { return Ok, content; }
    var haveMemory := a.disk.Works();
    if !haveMemory { return NoMemory, content; }
    if e.source.Some? {
      s, content := PakReaders.ReadSource(a.disk, e.source.value, e.csize);
      return;
    }
    if e.packing == STORED { return Ok, e.data.value; }
    s, content := Unpack(a.disk, a.codec, e.data.value, e.usize);
  }

  lemma StagedEntry(a: ZipArchive, e: Entry)
    requires a.Valid() && e in a.entries && e.Staged()
    ensures e.source.Some? ==> e.data.None? && e.packing == STORED && e.source.value in a.disk.files
    ensures e.packing == STORED ==> e.csize == e.usize
    ensures e.packing == STORED || e.packing == DEFLATED
    ensures e.data.Some? ==> |e.data.value| == e.csize
  {
    hide ZipMeans, Lossless;
    assert EntrySound(e, a.cdrOffset, a.disk.files, a.path);
  }

  lemma StoredEntry(a: ZipArchive, e: Entry)
    requires a.Valid() && e in a.entries && !e.Staged()
    ensures a.path in a.disk.files && e.payload + e.csize <= |a.disk.files[a.path]|
    ensures e.packing == STORED ==> e.csize == e.usize
    ensures e.packing == STORED || e.packing == DEFLATED
    ensures StoredBody(a.disk.files, a.path, e) == a.disk.files[a.path][e.payload..e.payload + e.csize]
  {
    hide ZipMeans, Lossless;
    assert EntrySound(e, a.cdrOffset, a.disk.files, a.path);
  }

  lemma HasHandle(a: ZipArchive)
    requires a.Valid()
    ensures Live(a.disk, a.path, a.fp)
  {
    hide ZipMeans, Lossless, EntrySound;
  }

  /** Goes to a place in the archive's file and reads up to n bytes there. */
  method ReadFrom(a: ZipArchive, at: nat, n: nat) returns (data: seq<byte>)
    requires a.Valid() && a.fp.Some? && a.path in a.disk.files && at + n <= |a.disk.files[a.path]|
    modifies a.disk`cursors, a.disk`trouble
    ensures a.Valid() && (old(a.disk.trouble) ==> a.disk.trouble)
    ensures |data| <= n && (|data| < n ==> a.disk.trouble)
    ensures data != [] ==> data == a.disk.files[a.path][at..at + |data|]
  {
    hide ZipSound, ZipMeans, Lossless;
    HasHandle(a);
    data := ReadAt(a.disk, a.path, a.fp.value, at, n);
  }

  /** Fetches and unpacks a compressed payload on disk. */
  method OpenDeflated(a: ZipArchive, e: Entry) returns (s: Status, content: seq<byte>)
    requires a.Valid() && a.fp.Some? && e in a.entries && !e.Staged() && e.packing == DEFLATED
    requires !OverCap(e, a.maxDecompressed)
    modifies a.disk`cursors, a.disk`next, a.disk`trouble
    ensures a.Valid() && (old(a.disk.trouble) ==> a.disk.trouble)
    ensures s == Ok ==> Delivers(a.codec, a.disk.files, a.path, e, content)
    ensures OpenVerdict(s, a.codec, a.disk.files, a.path, e, a.maxDecompressed, a.disk.trouble)
  {
    hide ZipArchive.Valid;
    StoredEntry(a, e);
    content := [];
    if e.csize == 0 {
      NoStream(a, e);
      return FormatError, content;
    }
    var haveMemory := a.disk.Works();
    if !haveMemory { return NoMemory, content; }
    var body := ReadFrom(a, e.payload, e.csize);
    if |body| != e.csize { return IoError, content; }
    s, content := Unpack(a.disk, a.codec, body, e.usize);
  }

  lemma NoStream(a: ZipArchive, e: Entry)
    requires a.Valid() && e.csize == 0
    ensures a.codec.inflate([], e.usize).None?
  {
    hide ZipSound, ZipMeans;
  }

  /** Opens an entry of the archive for reading. */
  method OpenEntry(a: ZipArchive, i: nat) returns (s: Status, reader: Reader?)
    requires a.Valid() && i < |a.entries|
    modifies a.disk`cursors, a.disk`next, a.disk`trouble
    ensures a.Valid() && (old(a.disk.trouble) ==> a.disk.trouble)
    ensures a.fp.None? <==> s == InvalidArgument
    ensures a.fp.Some? ==>
      OpenVerdict(s, a.codec, a.disk.files, a.path, a.entries[i], a.maxDecompressed, a.disk.trouble)
    ensures s == Ok <==> reader != null
    ensures s == Ok ==>
      && fresh(reader) && reader.Valid() && reader.disk == a.disk && reader.path == a.path && reader.delivered == []
      && Delivers(a.codec, a.disk.files, a.path, a.entries[i], reader.content)
  {
    hide ZipArchive.Valid, Delivers, OpenVerdict;
    reader := null;
    var e := a.entries[i];
    Refused(a.codec, a.disk.files, a.path, e, a.maxDecompressed);
    if a.fp.None? { return InvalidArgument, reader; }
    var haveMemory := a.disk.Works();
    if !haveMemory { return NoMemory, reader; }
    if OverCap(e, a.maxDecompressed) { return LimitError, reader; }
    var content;
    if e.Staged() {
      s, content := OpenStaged(a, e);
    } else if e.packing == STORED {
      StoredEntry(a, e);
      Streamed(a.codec, a.disk.files, a.path, e, a.maxDecompressed, a.disk.trouble);
      reader := new Reader(a.disk, a.path, true, e.payload, None, e.usize, StoredBody(a.disk.files, a.path, e));
      return Ok, reader;
    } else {
      StoredEntry(a, e);
      s, content := OpenDeflated(a, e);
    }
    NeverInvalid(s, a.codec, a.disk.files, a.path, e, a.maxDecompressed, a.disk.trouble);
    if s == Ok {
      reader := new Reader(a.disk, a.path, true, e.payload, Some(content), |content|, content);
    }
  }

  lemma Refused(c: Codec, files: Files, path: Path, e: Entry, cap: nat)
    ensures OpenVerdict(NoMemory, c, files, path, e, cap, true) && OpenVerdict(IoError, c, files, path, e, cap, true)
    ensures OverCap(e, cap) ==> forall trouble :: OpenVerdict(LimitError, c, files, path, e, cap, trouble)
  {}

  lemma NeverInvalid(s: Status, c: Codec, files: Files, path: Path, e: Entry, cap: nat, trouble: bool)
    requires OpenVerdict(s, c, files, path, e, cap, trouble)
    ensures s != InvalidArgument
  {}

  lemma Streamed(c: Codec, files: Files, path: Path, e: Entry, cap: nat, trouble: bool)
    requires !e.Staged() && e.packing == STORED && !OverCap(e, cap) && |StoredBody(files, path, e)| == e.usize
    ensures OpenVerdict(Ok, c, files, path, e, cap, trouble)
    ensures Delivers(c, files, path, e, StoredBody(files, path, e))
  {}

  /** Opens the entry and reads all of it. */
  method ReadEntry(a: ZipArchive, i: nat) returns (s: Status, data: seq<byte>)
    requires a.Valid() && a.fp.Some? && i < |a.entries|
    modifies a.disk`cursors, a.disk`next, a.disk`trouble
    ensures a.Valid() && (old(a.disk.trouble) ==> a.disk.trouble)
    ensures OpenVerdict(s, a.codec, a.disk.files, a.path, a.entries[i], a.maxDecompressed, a.disk.trouble)
    ensures s == Ok ==> Delivers(a.codec, a.disk.files, a.path, a.entries[i], data)
  {
    hide ZipArchive.Valid, Delivers, OpenVerdict;
    data := [];
    var reader;
    s, reader := OpenEntry(a, i);
    if s != Ok { return; }
    ghost var before := a.disk.trouble;
    s, data := ReadOut(a, reader);
    StillOpened(a.codec, a.disk.files, a.path, a.entries[i], a.maxDecompressed, before, a.disk.trouble);
  }

  lemma StillOpened(c: Codec, files: Files, path: Path, e: Entry, cap: nat, before: bool, after: bool)
    requires OpenVerdict(Ok, c, files, path, e, cap, before)
    ensures OpenVerdict(Ok, c, files, path, e, cap, after) && OpenVerdict(IoError, c, files, path, e, cap, true)
  {}

  /** Reads all that a reader of the archive has to deliver. */
  method ReadOut(a: ZipArchive, reader: Reader) returns (s: Status, data: seq<byte>)
    requires a.Valid() && a.fp.Some? && reader.Valid() && reader.disk == a.disk && reader.path == a.path
    requires reader.delivered == []
    modifies reader, a.disk`cursors, a.disk`trouble
    ensures a.Valid() && (old(a.disk.trouble) ==> a.disk.trouble)
    ensures s == Ok || (s == IoError && a.disk.trouble)
    ensures s == Ok ==> data == reader.content
  {
    hide ZipSound, ZipMeans, Lossless;
    HasHandle(a);
    s, data := Drain(reader, a.fp.value);
  }

  // ----- Reading what was written -----

  /** The item is larger than the cap allows, packed or unpacked. */
  predicate ItemOverCap(item: ZipItem, cap: nat) {
    cap > 0 && (item.usize > cap || |item.body| > cap)
  }

  /** The item at this place stands for the data. */
  ghost predicate Keeps(c: Codec, items: seq<ZipItem>, i: nat, data: seq<byte>) {
    i < |items| && Denotes(c, items[i], data)
  }

  /** An entry that stands for some data delivers that data. */
  lemma DeliversDenoted(a: ZipArchive, i: nat, content: seq<byte>, data: seq<byte>)
    requires a.Valid() && i < |a.entries| && Denotes(a.codec, ItemFor(a.disk.files, a.path, a.entries[i]), data)
    requires Delivers(a.codec, a.disk.files, a.path, a.entries[i], content)
    ensures content == data
  {
    hide ZipMeans, Crc32.Crc;
    var e := a.entries[i];
    assert EntrySound(e, a.cdrOffset, a.disk.files, a.path);
  }

  /** Unless a call fails, such an entry is refused exactly if it is above the cap. */
  lemma OnlyTheCap(a: ZipArchive, i: nat, s: Status, trouble: bool, data: seq<byte>)
    requires a.Valid() && i < |a.entries|
    requires var item := ItemFor(a.disk.files, a.path, a.entries[i]);
             Denotes(a.codec, item, data)
    requires OpenVerdict(s, a.codec, a.disk.files, a.path, a.entries[i], a.maxDecompressed, trouble)
    ensures var item := ItemFor(a.disk.files, a.path, a.entries[i]);
            trouble || s == if ItemOverCap(item, a.maxDecompressed) then LimitError else Ok
  {
    hide ZipMeans, Crc32.Crc;
    var e := a.entries[i];
    assert EntrySound(e, a.cdrOffset, a.disk.files, a.path);
    StoredSize(a, e, data);
  }

  lemma StoredSize(a: ZipArchive, e: Entry, data: seq<byte>)
    requires a.Valid() && e in a.entries && Denotes(a.codec, ItemFor(a.disk.files, a.path, e), data)
    ensures |StoredBody(a.disk.files, a.path, e)| == e.csize
  {
    hide ZipMeans, Crc32.Crc;
    assert EntrySound(e, a.cdrOffset, a.disk.files, a.path);
  }

  /** An entry that stands for the data is read back. Unless a call fails, it is refused exactly if it is
      above the cap. */
  method ReadBack(a: ZipArchive, i: nat, ghost data: seq<byte>) returns (s: Status, got: seq<byte>)
    requires a.Valid() && a.fp.Some? && Keeps(a.codec, a.Contents(), i, data)
    modifies a.disk`cursors, a.disk`next, a.disk`trouble
    ensures a.Valid() && (old(a.disk.trouble) ==> a.disk.trouble)
    ensures s == Ok ==> got == data
    ensures !a.disk.trouble ==> s == if ItemOverCap(a.Contents()[i], a.maxDecompressed) then LimitError else Ok
  {
    hide ZipArchive.Valid, Delivers, OpenVerdict, Denotes, ItemOverCap;
    s, got := ReadEntry(a, i);
    OnlyTheCap(a, i, s, a.disk.trouble, data);
    if s == Ok { DeliversDenoted(a, i, got, data); }
  }
}
