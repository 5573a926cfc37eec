/** Opening and reading the entries of PAK-class archives. */
module PakReaders {
  import opened ByteStrings
  import opened Outcomes
  import opened PakFormat
  import opened PakDirectories
  import opened PakStates
  import opened PakArchives
  import opened EntryLists
  import opened Disks
  import opened PakRebuilding
  import opened Readers
  import DkCodec

  lemma HasHandle(a: Archive)
    requires a.Valid()
    ensures Live(a.disk, a.path, a.fp)
  {
    hide Filed, Below, EntryList.ListValid, AnyStaged;
  }

  /** Goes to a place in the archive's file and reads up to n bytes there. */
  method ReadFrom(a: Archive, at: nat, n: nat) returns (data: seq<byte>)
    requires a.Valid() && a.fp.Some? && a.path in a.disk.files && at + n <= |a.disk.files[a.path]|
    modifies a.disk`cursors, a.disk`trouble
    ensures a.Valid() && (old(a.disk.trouble) ==> a.disk.trouble)
    ensures |data| <= n && (|data| < n ==> a.disk.trouble)
    ensures data != [] ==> data == a.disk.files[a.path][at..at + |data|]
  {
    hide Sound, Filed, Below, EntryList.ListValid, AnyStaged;
    HasHandle(a);
    data := ReadAt(a.disk, a.path, a.fp.value, at, n);
  }

  /** Reads all that a reader of the archive has to deliver. */
  method ReadOut(a: Archive, reader: Reader) returns (s: Status, data: seq<byte>)
    requires a.Valid() && a.fp.Some? && reader.Valid() && reader.disk == a.disk && reader.path == a.path
    requires reader.delivered == []
    modifies reader, a.disk`cursors, a.disk`trouble
    ensures a.Valid() && (old(a.disk.trouble) ==> a.disk.trouble)
    ensures s == Ok || (s == IoError && a.disk.trouble)
    ensures s == Ok ==> data == reader.content
  {
    hide Sound, Filed, Below, EntryList.ListValid, AnyStaged;
    HasHandle(a);
    s, data := Drain(reader, a.fp.value);
  }

  // ----- Opening an entry -----

  /** What reading a row delivers: the stored payload unpacked, or as much of it as the row's length says. */
  ghost predicate Delivers(files: Files, path: Path, r: Row, content: seq<byte>) {
    var body := Body(files, path, r);
    && |content| == r.length
    && if r.compressed then DkCodec.Accepts(body, r.length) && content == DkCodec.Meaning(body, []).out
       else content <= body
  }

  /** How opening a row can end: packed entries above the cap or with a bad payload are refused; a
      source file may have become too short. */
  ghost predicate OpenVerdict(s: Status, files: Files, path: Path, r: Row, cap: nat, trouble: bool) {
    var body := Body(files, path, r);
    && s in {Ok, LimitError, FormatError, IoError, NoMemory, UnsafeName}
    && (s == Ok ==> !OverCap(r, cap))
    && (|| trouble || s == Ok
        || (s == LimitError && OverCap(r, cap))
        || (s == FormatError && r.compressed && !DkCodec.Accepts(body, r.length))
        || (s == IoError && r.source.Some? && |body| < r.length))
  }

  predicate OverCap(r: Row, cap: nat) {
    r.compressed && cap > 0 && (r.length > cap || r.packed > cap)
  }

  /** Unpacks a payload that has been read. */
  method Unpack(disk: Disk, body: seq<byte>, length: nat) returns (s: Status, out: seq<byte>)
    modifies disk`trouble
    ensures (old(disk.trouble) ==> disk.trouble) && s in {Ok, NoMemory, FormatError} && (s == NoMemory ==> disk.trouble)
    ensures s == Ok ==> DkCodec.Accepts(body, length) && out == DkCodec.Meaning(body, []).out
    ensures s == FormatError ==> !DkCodec.Accepts(body, length)
  {
    out := [];
    var haveMemory := disk.Works();
    if !haveMemory { return NoMemory, out; }
    var input := new byte[|body|](i requires 0 <= i < |body| => body[i]);
    assert input[..] == body;
    var output := new byte[length];
    var status, read := DkCodec.Inflate(input, output);
    return if status.Ok? then Ok else FormatError, output[..];
  }

  /** Reads as many bytes of a staged source file as the row says. */
  method ReadSource(disk: Disk, source: Path, n: nat) returns (s: Status, data: seq<byte>)
    requires disk.Valid()
    modifies disk`cursors, disk`next, disk`trouble
    ensures disk.Valid() && (old(disk.trouble) ==> disk.trouble) && HandlesKept(old(disk.cursors), disk.cursors)
    ensures s == Ok ==> source in disk.files && data <= disk.files[source] && |data| == n
    ensures s in {Ok, IoError, UnsafeName}
    ensures s != Ok ==> disk.trouble || source !in disk.files || (s == IoError && |disk.files[source]| < n)
  {
    data := [];
    var noLink := disk.Works();
    if !noLink { return UnsafeName, data; }
    var statWorks := disk.Works();
    if !statWorks { return IoError, data; }
    var isRegular := disk.Works();
    if !isRegular { return UnsafeName, data; }
    var h := disk.Open(source);
    if h.None? { return IoError, data; }
    data := disk.Read(h.value, n);
    var _ := disk.Close(h.value);
    return if |data| == n then Ok else IoError, data;
  }

  /** Fetches a staged payload, unpacked if it is packed. */
  method OpenStaged(a: Archive, r: Row, ghost end: nat) returns (s: Status, content: seq<byte>)
    requires a.Valid() && r.Staged() && RowSound(a.format, r, end, a.disk.files, a.path)
    modifies a.disk`cursors, a.disk`next, a.disk`trouble
    ensures a.Valid() && (old(a.disk.trouble) ==> a.disk.trouble)
    ensures s == Ok ==> Delivers(a.disk.files, a.path, r, content)
    ensures OpenVerdict(s, a.disk.files, a.path, r, a.maxDecompressed, a.disk.trouble)
  {
    hide Sound, Reloads, EntryList.ListValid, AnyStaged, DkCodec.Accepts, DkCodec.Meaning, Fits;
    content := [];
    if r.Extent() == 0 {
      NothingToDeliver(a.format, r, end, a.disk.files, a.path, a.maxDecompressed);
      return Ok, content;
    }
    var haveMemory := a.disk.Works();
    if !haveMemory { return NoMemory, content; }
    var body;
    if r.source.Some? {
      s, body := ReadSource(a.disk, r.source.value, r.Extent());
      return s, body;
    }
    body := r.data.value;
    if !r.compressed { return Ok, body; }
    if OverCap(r, a.maxDecompressed) { return LimitError, content; }
    if r.length == 0 {
      NothingInside(body);
      return Ok, content;
    }
    s, content := Unpack(a.disk, body, r.length);
  }

  lemma NothingInside(body: seq<byte>)
    requires DkCodec.Accepts(body, 0)
    ensures DkCodec.Meaning(body, []).out == []
  {}

  lemma NothingToDeliver(fmt: Format, r: Row, end: nat, files: Files, path: Path, cap: nat)
    requires RowSound(fmt, r, end, files, path) && r.Staged() && r.Extent() == 0
    ensures Delivers(files, path, r, []) && !OverCap(r, cap)
  {
    if r.compressed {
      assert r.data.value == [];
      assert DkCodec.Meaning([], []).out == [];
    }
  }

  /** Fetches and unpacks a payload on disk. */
  method OpenPacked(a: Archive, r: Row) returns (s: Status, content: seq<byte>)
    requires a.Valid() && a.fp.Some? && !r.Staged() && r.compressed && a.path in a.disk.files
    requires r.End() <= |a.disk.files[a.path]|
    modifies a.disk`cursors, a.disk`trouble
    ensures a.Valid() && (old(a.disk.trouble) ==> a.disk.trouble)
    ensures s == Ok ==> Delivers(a.disk.files, a.path, r, content)
    ensures OpenVerdict(s, a.disk.files, a.path, r, a.maxDecompressed, a.disk.trouble)
  {
    hide Archive.Valid, DkCodec.Accepts, DkCodec.Meaning;
    content := [];
    if OverCap(r, a.maxDecompressed) { return LimitError, content; }
    var haveMemory := a.disk.Works();
    if !haveMemory { return NoMemory, content; }
    var body := [];
    if r.packed > 0 {
      body := ReadFrom(a, r.offset, r.packed);
      if |body| != r.packed { return IoError, content; }
    }
    s, content := Unpack(a.disk, body, r.length);
  }

  lemma Troubled(files: Files, path: Path, r: Row, cap: nat)
    ensures OpenVerdict(NoMemory, files, path, r, cap, true)
  {}

  lemma NeverInvalid(s: Status, files: Files, path: Path, r: Row, cap: nat, trouble: bool)
    requires OpenVerdict(s, files, path, r, cap, trouble)
    ensures s != InvalidArgument && s != NotFound
  {}

  lemma EntrySound(a: Archive, i: nat)
    requires a.Valid() && i < |a.list.nodes|
    ensures var r := a.list.Rows()[i];
            && RowSound(a.format, r, a.payloadEnd, a.disk.files, a.path) && a.path in a.disk.files
            && (!r.Staged() ==> r.End() <= |a.disk.files[a.path]|)
  {
    hide Reloads, AnyStaged, EntryList.ListValid;
    assert a.list.Rows()[i] in a.list.Rows();
  }

  lemma Streamed(files: Files, path: Path, r: Row, cap: nat, trouble: bool)
    requires path in files && !r.Staged() && !r.compressed && r.End() <= |files[path]|
    ensures OpenVerdict(Ok, files, path, r, cap, trouble)
    ensures Delivers(files, path, r, Slice(files[path], r.offset, r.length))
  {}

  lemma DeliveredLength(files: Files, path: Path, r: Row, content: seq<byte>)
    requires Delivers(files, path, r, content)
    ensures |content| == r.length
  {}

  /** Opens an entry of the archive for reading. */
  method OpenHandle(a: Archive, entry: Entry, ghost i: nat) returns (s: Status, reader: Reader?)
    requires a.Valid() && i < |a.list.nodes| && entry == a.list.nodes[i]
    modifies a.disk`cursors, a.disk`next, a.disk`trouble
    ensures a.Valid() && (old(a.disk.trouble) ==> a.disk.trouble)
    ensures a.fp.None? <==> s == InvalidArgument
    ensures a.fp.Some? ==> OpenVerdict(s, a.disk.files, a.path, a.list.Rows()[i], a.maxDecompressed, a.disk.trouble)
    ensures s == Ok <==> reader != null
    ensures s == Ok ==>
      && fresh(reader) && reader.Valid() && reader.disk == a.disk && reader.path == a.path && reader.delivered == []
      && Delivers(a.disk.files, a.path, a.list.Rows()[i], reader.content)
  {
    hide Archive.Valid, Delivers, OpenVerdict;
    reader := null;
    if a.fp.None? { return InvalidArgument, reader; }
    var haveMemory := a.disk.Works();
    Troubled(a.disk.files, a.path, a.list.Rows()[i], a.maxDecompressed);
    if !haveMemory { return NoMemory, reader; }
    var row := entry.row;
    EntrySound(a, i);
    var content;
    if row.Staged() {
      s, content := OpenStaged(a, row, a.payloadEnd);
    } else if row.compressed {
      s, content := OpenPacked(a, row);
    } else {
      Streamed(a.disk.files, a.path, row, a.maxDecompressed, a.disk.trouble);
      ghost var stored := Slice(a.disk.files[a.path], row.offset, row.length);
      var r := new Reader(a.disk, a.path, false, row.offset, None, row.length, stored);
      return Ok, r;
    }
    NeverInvalid(s, a.disk.files, a.path, row, a.maxDecompressed, a.disk.trouble);
    if s == Ok {
      DeliveredLength(a.disk.files, a.path, row, content);
      reader := new Reader(a.disk, a.path, false, row.offset, Some(content), row.length, content);
    }
  }

  // ----- Reading an entry as a whole -----

  /** The whole content of the first entry of this name. */
  method ReadAll(a: Archive, name: seq<byte>) returns (s: Status, data: seq<byte>)
    requires a.Valid()
    modifies a.disk`cursors, a.disk`next, a.disk`trouble
    ensures a.Valid() && (old(a.disk.trouble) ==> a.disk.trouble)
    ensures var rows := a.list.Rows();
            var i := IndexOf(rows, name);
            if i == |rows| then s == NotFound
            else if a.fp.None? then s in {InvalidArgument, LimitError, NoMemory}
            else OpenVerdict(s, a.disk.files, a.path, rows[i], a.maxDecompressed, a.disk.trouble)
                 && (s == Ok ==> Delivers(a.disk.files, a.path, rows[i], data))
  {
    hide Archive.Valid, Delivers, OpenVerdict, IndexOf, EntryList.ListValid, EntryList.Rows;
    data := [];
    ListSound(a);
    var entry, i := a.list.Find(name);
    if entry == null { return NotFound, data; }
    var row := entry.row;
    if row.length > 0 {
      if row.compressed && a.maxDecompressed > 0 && row.length > a.maxDecompressed {
        TooBig(a.disk.files, a.path, row, a.maxDecompressed, a.disk.trouble);
        return LimitError, data;
      }
      var haveMemory := a.disk.Works();
      Troubled(a.disk.files, a.path, row, a.maxDecompressed);
      if !haveMemory { return NoMemory, data; }
    }
    s, data := Deliver(a, entry, i);
  }

  /** Opens the entry and reads as many bytes as it says it has. */
  method Deliver(a: Archive, entry: Entry, ghost i: nat) returns (s: Status, data: seq<byte>)
    requires a.Valid() && i < |a.list.nodes| && entry == a.list.nodes[i]
    modifies a.disk`cursors, a.disk`next, a.disk`trouble
    ensures a.Valid() && (old(a.disk.trouble) ==> a.disk.trouble)
    ensures var r := a.list.Rows()[i];
            if a.fp.None? then s in {InvalidArgument, LimitError, NoMemory}
            else OpenVerdict(s, a.disk.files, a.path, r, a.maxDecompressed, a.disk.trouble)
                 && (s == Ok ==> Delivers(a.disk.files, a.path, r, data))
  {
    hide Archive.Valid, Delivers, OpenVerdict, EntryList.ListValid, EntryList.Rows;
    data := [];
    ListSound(a);
    var row := entry.row;
    var reader;
    s, reader := OpenHandle(a, entry, i);
    if s != Ok { return; }
    DeliveredLength(a.disk.files, a.path, row, reader.content);
    if row.length > 0 {
      ghost var before := a.disk.trouble;
      s, data := ReadOut(a, reader);
      ReadFailed(a.disk.files, a.path, row, a.maxDecompressed, before, a.disk.trouble);
    }
  }

  lemma ReadFailed(files: Files, path: Path, r: Row, cap: nat, before: bool, after: bool)
    requires OpenVerdict(Ok, files, path, r, cap, before)
    ensures OpenVerdict(Ok, files, path, r, cap, after)
    ensures OpenVerdict(IoError, files, path, r, cap, true)
  {}

  lemma ListSound(a: Archive)
    requires a.Valid()
    ensures a.list.ListValid()
  {}

  lemma TooBig(files: Files, path: Path, r: Row, cap: nat, trouble: bool)
    requires r.compressed && cap > 0 && r.length > cap
    ensures OpenVerdict(LimitError, files, path, r, cap, trouble)
  {}

  // ----- Reading an entry through its own handle -----

  /** Opens the entry, reads all of it, and closes it. */
  method ReadEntry(a: Archive, entry: Entry, ghost i: nat) returns (s: Status, data: seq<byte>)
    requires a.Valid() && a.fp.Some? && i < |a.list.nodes| && entry == a.list.nodes[i]
    modifies a.disk`cursors, a.disk`next, a.disk`trouble
    ensures a.Valid() && (old(a.disk.trouble) ==> a.disk.trouble)
    ensures var r := a.list.Rows()[i];
            && OpenVerdict(s, a.disk.files, a.path, r, a.maxDecompressed, a.disk.trouble)
            && (s == Ok ==> Delivers(a.disk.files, a.path, r, data))
  {
    hide Archive.Valid, Delivers, OpenVerdict, EntryList.ListValid, EntryList.Rows;
    data := [];
    ghost var row := a.list.Rows()[i];
    var reader;
    s, reader := OpenHandle(a, entry, i);
    if s != Ok { return; }
    ghost var before := a.disk.trouble;
    s, data := ReadOut(a, reader);
    ReadFailed(a.disk.files, a.path, row, a.maxDecompressed, before, a.disk.trouble);
  }

  // ----- Reading what was written -----

  /** An entry that stands for some content delivers that content. */
  lemma DeliversDenoted(files: Files, path: Path, r: Row, content: seq<byte>, data: seq<byte>)
    requires Delivers(files, path, r, content) && ItemOf(files, path, r).Denotes(data)
    ensures content == data
  {
    hide DkCodec.Accepts, DkCodec.Meaning;
  }

  /** Two lists of items that opening the same file gives are the same. */
  lemma MeansOnce(bytes: seq<byte>, fmt: Format, items: seq<Item>, others: seq<Item>)
    requires Means(bytes, fmt, items) && Means(bytes, fmt, others) && |items| <= MAX_ENTRIES
    ensures items == others
  {}
}
