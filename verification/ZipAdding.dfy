/** What an add to a ZIP archive queues, and how it gets it from a source file. */
module ZipAdding {
  import opened ByteStrings
  import opened Outcomes
  import opened Deflate
  import opened ZipFormat
  import opened ZipCommitting
  import opened ZipMeanings
  import opened PakCopying
  import opened PakRebuilding
  import opened Disks
  import Crc32

  /** What the compressor makes of the data, if it is asked and there is any. */
  function Encoded(c: Codec, deflates: bool, data: seq<byte>): Option<seq<byte>> {
    if deflates && data != [] then c.deflate(data) else None
  }

  /** The item an add makes of the data: compressed, or stored if that is no smaller. */
  function Queued(c: Codec, deflates: bool, name: seq<byte>, data: seq<byte>): ZipItem {
    var crc := Crc32.Crc(0, data) as int;
    match Encoded(c, deflates, data)
    case Some(body) => ZipItem(name, DEFLATED, crc, |data|, body)
    case None => ZipItem(name, STORED, crc, |data|, data)
  }

  /** Compressed or not, the item stands for the data and takes no more room. */
  lemma QueuedDenotes(c: Codec, deflates: bool, name: seq<byte>, data: seq<byte>)
    requires Lossless(c)
    ensures var item := Queued(c, deflates, name, data);
            Denotes(c, item, data) && |item.body| <= |data|
  {}

  /** It is compressed exactly if that is asked for and the compressor makes it smaller. */
  lemma QueuedExactly(c: Codec, deflates: bool, name: seq<byte>, data: seq<byte>)
    requires Lossless(c)
    ensures var item := Queued(c, deflates, name, data);
            && item.name == name && item.usize == |data|
            && item.packing == (if deflates && data != [] && c.deflate(data).Some? then 8 else 0)
            && (item.packing == 8 <==> |item.body| < |data|)
  {
    hide Crc32.Crc;
  }

  /** Asks the compressor. */
  method Compress(disk: Disk, c: Codec, deflates: bool, data: seq<byte>) returns (s: Status, encoded: Option<seq<byte>>)
    modifies disk`trouble
    ensures old(disk.trouble) ==> disk.trouble
    ensures if s == Ok then encoded == Encoded(c, deflates, data) else s in {NoMemory, FormatError} && disk.trouble
  {
    encoded := None;
    if !deflates || data == [] { return Ok, encoded; }
    var haveMemory := disk.Works();
    if !haveMemory { return NoMemory, encoded; }
    var accepted := disk.Works();
    if !accepted { return FormatError, encoded; }
    return Ok, c.deflate(data);
  }

  // ----- Source files -----

  /** Refuses links and anything that is no regular file. */
  method CheckSource(disk: Disk, source: Path) returns (s: Status)
    modifies disk`trouble
    ensures old(disk.trouble) ==> disk.trouble
    ensures s == Ok ==> source in disk.files
    ensures s != Ok ==> (disk.trouble || source !in disk.files) && s in {UnsafeName, IoError}
  {
    var noLink := disk.Works();
    if !noLink { return UnsafeName; }
    if source !in disk.files { return IoError; }
    var isRegular := disk.Works();
    return if isRegular then Ok else UnsafeName;
  }

  /** What scanning a source that is not too large finds out. */
  ghost predicate Measured(file: seq<byte>, crc: bv32, total: nat) {
    total == |file| <= U32_MAX && crc == Crc32.Crc(0, file)
  }

  /** Reads the source once to learn its size and checksum. */
  method ScanSource(disk: Disk, source: Path) returns (s: Status, crc: bv32, total: nat)
    requires disk.Valid() && source in disk.files
    modifies disk`cursors, disk`next, disk`trouble
    ensures disk.Valid() && HandlesKept(old(disk.cursors), disk.cursors) && (old(disk.trouble) ==> disk.trouble)
    ensures s in {Ok, LimitError, IoError}
    ensures s == Ok ==> Measured(disk.files[source], crc, total)
    ensures s == LimitError ==> |disk.files[source]| > U32_MAX
    ensures s == IoError ==> disk.trouble
  {
    hide Crc32.Crc;
    crc, total := 0, 0;
    var h := disk.Open(source);
    if h.None? { return IoError, crc, total; }
    ghost var during := disk.cursors;
    s, crc, total := ScanOpened(disk, h.value);
    KeptThrough(old(disk.cursors), during, disk.cursors, h.value, source);
    var _ := disk.Close(h.value);
  }

  lemma KeptThrough(c0: map<Handle, Cursor>, c1: map<Handle, Cursor>, c2: map<Handle, Cursor>, h: Handle, source: Path)
    requires h !in c0 && c1 == c0[h := Cursor(source, 0)] && SameHandles(c1, c2)
    ensures h in c2 && HandlesKept(c0, c2 - {h})
  {}

  method ScanOpened(disk: Disk, h: Handle) returns (s: Status, crc: bv32, total: nat)
    requires disk.Valid() && disk.IsOpen(h) && disk.cursors[h].pos == 0
    modifies disk`cursors, disk`trouble
    ensures disk.Valid() && SameHandles(old(disk.cursors), disk.cursors) && (old(disk.trouble) ==> disk.trouble)
    ensures var file := disk.files[disk.cursors[h].path];
            && s in {Ok, LimitError, IoError}
            && (s == Ok ==> Measured(file, crc, total))
            && (s == LimitError ==> |file| > U32_MAX)
            && (s == IoError ==> disk.trouble)
  {
    hide Crc32.Crc;
    ghost var file := disk.files[disk.cursors[h].path];
    crc, total := 0, 0;
    Crc32.EmptyMessage(0);
    assert file[..0] == [];
    while true
      invariant disk.Valid() && SameHandles(old(disk.cursors), disk.cursors) && (old(disk.trouble) ==> disk.trouble)
      invariant disk.cursors[h].pos == total <= |file| && total <= U32_MAX && crc == Crc32.Crc(0, file[..total])
      decreases |file| - total
    {
      var data := disk.Read(h, COPY_CHUNK);
      if data == [] { break; }
      assert file[..total + |data|] == file[..total] + data;
      Crc32.CrcChains(0, file[..total], data);
      crc := Crc32.Crc(crc, data);
      total := total + |data|;
      if total > U32_MAX { return LimitError, crc, total; }
    }
    // A read that gave nothing before the end of the file was a failed one.
    if total != |disk.files[disk.cursors[h].path]| { return IoError, crc, total; }
    assert file[..total] == file;
    return Ok, crc, total;
  }

  /** Reads so many bytes of the source. */
  method Capture(disk: Disk, source: Path, total: nat) returns (s: Status, data: seq<byte>)
    requires disk.Valid() && source in disk.files && total == |disk.files[source]|
    modifies disk`cursors, disk`next, disk`trouble
    ensures disk.Valid() && HandlesKept(old(disk.cursors), disk.cursors) && (old(disk.trouble) ==> disk.trouble)
    ensures if s == Ok then data == disk.files[source] else s in {NoMemory, IoError} && disk.trouble
  {
    data := [];
    var haveMemory := disk.Works();
    if !haveMemory { return NoMemory, data; }
    var h := disk.Open(source);
    if h.None? { return IoError, data; }
    ghost var during := disk.cursors;
    data := disk.Read(h.value, total);
    KeptThrough(old(disk.cursors), during, disk.cursors, h.value, source);
    var _ := disk.Close(h.value);
    return if |data| == total then Ok else IoError, data;
  }
}
