/** Writing the directory and the header of a PAK-class archive into an open file. */
module PakWriting {
  import opened ByteStrings
  import opened Outcomes
  import opened PakFormat
  import opened PakDirectories
  import opened PakCopying
  import opened EntryLists
  import opened Disks

  function Joined(parts: seq<seq<byte>>): seq<byte> {
    if parts == [] then [] else parts[0] + Joined(parts[1..])
  }

  /** Writes the parts one after the other, up to the first failure. */
  method WriteParts(disk: Disk, h: Handle, parts: seq<seq<byte>>, ghost t: Target, ghost done: seq<byte>)
    returns (ok: bool)
    requires disk.Valid() && Holding(disk.files, disk.cursors, h, t, done)
    requires t.end <= t.at || t.at + |done| + |Joined(parts)| <= HEADER_SIZE
    modifies disk`cursors, disk`files, disk`log, disk`trouble
    ensures disk.Valid() && OnlyMoved(old(disk.cursors), disk.cursors, h) && (old(disk.trouble) ==> disk.trouble)
    ensures Confined(old(disk.files), old(disk.log), disk.files, disk.log, disk.cursors[h].path, t.end)
    ensures !ok ==> disk.trouble
    ensures ok ==> Holding(disk.files, disk.cursors, h, t, done + Joined(parts))
  {
    hide Holding, Splice, Confined;
    HoldingOpen(disk.files, disk.cursors, h, t, done);
    ghost var p := disk.cursors[h].path;
    ghost var sofar := done;
    assert parts[0..] == parts;
    NothingWritten(disk.files, disk.log, p, t.end);
    for i := 0 to |parts|
      invariant disk.Valid() && OnlyMoved(old(disk.cursors), disk.cursors, h) && (old(disk.trouble) ==> disk.trouble)
      invariant Confined(old(disk.files), old(disk.log), disk.files, disk.log, p, t.end)
      invariant Holding(disk.files, disk.cursors, h, t, sofar) && sofar + Joined(parts[i..]) == done + Joined(parts)
    {
      ghost var f0, l0 := disk.files, disk.log;
      assert parts[i..][0] == parts[i] && parts[i..][1..] == parts[i + 1..];
      assert sofar + parts[i] + Joined(parts[i + 1..]) == done + Joined(parts);
      ok := Append(disk, h, parts[i], t, sofar);
      ConfinedChains(old(disk.files), old(disk.log), f0, l0, disk.files, disk.log, p, t.end);
      if !ok {
        return;
      }
      sofar := sofar + parts[i];
    }
    assert sofar == done + Joined(parts);
    ok := true;
  }

  lemma HoldingOpen(files: Files, cursors: map<Handle, Cursor>, h: Handle, t: Target, done: seq<byte>)
    requires Holding(files, cursors, h, t, done)
    ensures h in cursors && cursors[h].path in files
  {}

  lemma StillThere(f0: Files, l0: seq<Files>, f1: Files, l1: seq<Files>, p: Path, end: nat)
    requires Confined(f0, l0, f1, l1, p, end)
    ensures p in f0 && p in f1
  {}

  /** A row's fields in the order the format stores them. */
  function RowFields(fmt: Format, r: Row): (parts: seq<seq<byte>>)
    requires Fits(fmt, r)
    ensures Joined(parts) == RowBytes(fmt, r)
  {
    var name := NameField(r.name, fmt.NameLen());
    var parts :=
      if fmt.Wad() then [U32Bytes(r.offset), U32Bytes(r.length), name]
      else if fmt.Compresses() then
        [name, U32Bytes(r.offset), U32Bytes(r.length), U32Bytes(r.packed), U32Bytes(if r.compressed then 1 else 0)]
      else [name, U32Bytes(r.offset), U32Bytes(r.length)];
    JoinThree(parts[0], parts[1], parts[2], parts);
    if fmt.Compresses() then JoinFive(parts[0], parts[1], parts[2], parts[3], parts[4], parts); parts else parts
  }

  lemma JoinThree(a: seq<byte>, b: seq<byte>, c: seq<byte>, parts: seq<seq<byte>>)
    requires |parts| >= 3 && parts[..3] == [a, b, c]
    ensures |parts| == 3 ==> Joined(parts) == a + b + c && a + b + c == a + (b + c)
  {
    if |parts| == 3 {
      assert parts[1..] == [b, c] && [b, c][1..] == [c] && [c][1..] == [];
      assert Joined([c]) == c;
      assert Joined([b, c]) == b + c;
    }
  }

  lemma JoinFive(a: seq<byte>, b: seq<byte>, c: seq<byte>, d: seq<byte>, e: seq<byte>, parts: seq<seq<byte>>)
    requires parts == [a, b, c, d, e]
    ensures Joined(parts) == a + (b + c) + d + e
  {
    assert parts[1..] == [b, c, d, e] && [b, c, d, e][1..] == [c, d, e];
    JoinThree(c, d, e, [c, d, e]);
  }

  /** The header's fields in the order the format stores them. */
  function HeaderFields(fmt: Format, dirOffset: u32, dirLength: u32): (parts: seq<seq<byte>>)
    ensures Joined(parts) == HeaderBytes(fmt, dirOffset, dirLength)
  {
    var parts :=
      if fmt.Wad() then [fmt.Signature(), U32Bytes(dirLength / fmt.RowSize()), U32Bytes(dirOffset)]
      else [fmt.Signature(), U32Bytes(dirOffset), U32Bytes(dirLength)];
    JoinThree(parts[0], parts[1], parts[2], parts);
    parts
  }

  /** Goes to the front of the file and writes the header there. */
  method RewriteHeader(disk: Disk, fmt: Format, h: Handle, dirOffset: u32, dirLength: u32, ghost end: nat)
    returns (s: Status)
    requires disk.Valid() && disk.IsOpen(h)
    modifies disk`cursors, disk`files, disk`log, disk`trouble
    ensures disk.Valid() && OnlyMoved(old(disk.cursors), disk.cursors, h) && (old(disk.trouble) ==> disk.trouble)
    ensures var p := old(disk.cursors)[h].path;
            && Confined(old(disk.files), old(disk.log), disk.files, disk.log, p, end)
            && (s == Ok || (s == IoError && disk.trouble))
            && (s == Ok ==> disk.files[p] == Splice(old(disk.files)[p], 0, HeaderBytes(fmt, dirOffset, dirLength)))
  {
    hide HeaderBytes, Splice;
    var ok := disk.Seek(h, 0);
    if !ok { return IoError; }
    s := WriteHeader(disk, fmt, h, dirOffset, dirLength, end);
  }

  /** Writes the header at the front of the file; everything behind it stays. */
  method WriteHeader(disk: Disk, fmt: Format, h: Handle, dirOffset: u32, dirLength: u32, ghost end: nat)
    returns (s: Status)
    requires disk.Valid() && disk.IsOpen(h) && disk.cursors[h].pos == 0
    modifies disk`cursors, disk`files, disk`log, disk`trouble
    ensures disk.Valid() && OnlyMoved(old(disk.cursors), disk.cursors, h) && (old(disk.trouble) ==> disk.trouble)
    ensures var p := old(disk.cursors)[h].path;
            && Confined(old(disk.files), old(disk.log), disk.files, disk.log, p, end)
            && (s == Ok || (s == IoError && disk.trouble))
            && (s == Ok ==> disk.files[p] == Splice(old(disk.files)[p], 0, HeaderBytes(fmt, dirOffset, dirLength)))
  {
    hide HeaderBytes, HeaderFields, Joined, Splice;
    ghost var t := Target(disk.files[disk.cursors[h].path], 0, end);
    var parts := HeaderFields(fmt, dirOffset, dirLength);
    assert [] + Joined(parts) == Joined(parts);
    assert Splice(t.base, 0, []) == t.base;
    var ok := WriteParts(disk, h, parts, t, []);
    return if ok then Ok else IoError;
  }

  method WriteRow(disk: Disk, fmt: Format, r: Row, h: Handle, ghost t: Target, ghost done: seq<byte>) returns (ok: bool)
    requires disk.Valid() && Holding(disk.files, disk.cursors, h, t, done) && t.end <= t.at && Fits(fmt, r)
    modifies disk`cursors, disk`files, disk`log, disk`trouble
    ensures disk.Valid() && OnlyMoved(old(disk.cursors), disk.cursors, h) && (old(disk.trouble) ==> disk.trouble)
    ensures disk.IsOpen(h) && disk.cursors[h].path == old(disk.cursors)[h].path
    ensures Confined(old(disk.files), old(disk.log), disk.files, disk.log, disk.cursors[h].path, t.end)
    ensures !ok ==> disk.trouble
    ensures ok ==> Holding(disk.files, disk.cursors, h, t, done + RowBytes(fmt, r))
  {
    hide Confined, Splice;
    var parts := RowFields(fmt, r);
    ok := WriteParts(disk, h, parts, t, done);
    StillThere(old(disk.files), old(disk.log), disk.files, disk.log, disk.cursors[h].path, t.end);
  }

  /** Writes the rows at the position of h, in list order. */
  method WriteRows(disk: Disk, list: EntryList, fmt: Format, h: Handle, ghost t: Target)
    returns (ok: bool, dirLength: nat)
    requires disk.Valid() && Holding(disk.files, disk.cursors, h, t, []) && t.end <= t.at
    requires list.ListValid() && AllFit(fmt, list.Rows())
    modifies disk`cursors, disk`files, disk`log, disk`trouble
    ensures disk.Valid() && OnlyMoved(old(disk.cursors), disk.cursors, h) && (old(disk.trouble) ==> disk.trouble)
    ensures Confined(old(disk.files), old(disk.log), disk.files, disk.log, old(disk.cursors)[h].path, t.end)
    ensures !ok ==> disk.trouble
    ensures disk.IsOpen(h) && dirLength <= |DirBytes(fmt, list.Rows())|
    ensures ok ==> dirLength == |DirBytes(fmt, list.Rows())|
    ensures ok ==> disk.files[disk.cursors[h].path] == Splice(t.base, t.at, DirBytes(fmt, list.Rows()))
  {
    hide Splice, RowBytes, Fits, Holding, Confined, DirBytes, AllFit, Format.RowSize, Format.NameLen,
      EntryList.ListValid, EntryList.Rows, OnlyMoved;
    list.Walk(0);
    HoldingOpen(disk.files, disk.cursors, h, t, []);
    NothingMoved(disk.cursors, h);
    NothingWritten(disk.files, disk.log, disk.cursors[h].path, t.end);
    ghost var p := disk.cursors[h].path;
    ghost var rows := list.Rows();
    ghost var dir := DirBytes(fmt, rows);
    ghost var done: seq<byte> := [];
    ghost var i := 0;
    var current := list.head;
    dirLength := 0;
    ok := true;
    assert rows[0..] == rows && done + dir == dir;
    while current != null
      invariant disk.Valid() && OnlyMoved(old(disk.cursors), disk.cursors, h) && (old(disk.trouble) ==> disk.trouble)
      invariant Confined(old(disk.files), old(disk.log), disk.files, disk.log, p, t.end)
      invariant disk.IsOpen(h) && disk.cursors[h].path == p && i <= |rows|
        && (if i < |rows| then current == list.nodes[i] else current == null)
      invariant Holding(disk.files, disk.cursors, h, t, done) && |done| == dirLength
      invariant AllFit(fmt, rows[i..]) && done + DirBytes(fmt, rows[i..]) == dir
      decreases |rows| - i
    {
      ghost var f0, l0, c0 := disk.files, disk.log, disk.cursors;
      list.Walk(i);
      NextRow(fmt, rows, i);
      ghost var row := RowBytes(fmt, rows[i]);
      assert done + row + DirBytes(fmt, rows[i + 1..]) == dir;
      ok := WriteRow(disk, fmt, current.row, h, t, done);
      OnlyMovedChains(old(disk.cursors), c0, disk.cursors, h);
      ConfinedChains(old(disk.files), old(disk.log), f0, l0, disk.files, disk.log, p, t.end);
      if !ok {
        return;
      }
      done := done + row;
      dirLength := dirLength + fmt.RowSize();
      current := current.next;
      i := i + 1;
    }
    EndOfRows(fmt, rows, i);
    assert done == dir;
    HoldingBytes(disk.files, disk.cursors, h, t, dir);
  }

  lemma NextRow(fmt: Format, rows: seq<Row>, i: nat)
    requires i < |rows| && AllFit(fmt, rows[i..])
    ensures Fits(fmt, rows[i]) && AllFit(fmt, rows[i + 1..])
    ensures DirBytes(fmt, rows[i..]) == RowBytes(fmt, rows[i]) + DirBytes(fmt, rows[i + 1..])
  {
    assert rows[i..][0] == rows[i] && rows[i..][1..] == rows[i + 1..];
  }

  lemma EndOfRows(fmt: Format, rows: seq<Row>, i: nat)
    requires i == |rows|
    ensures rows[i..] == [] && AllFit(fmt, rows[i..]) && DirBytes(fmt, rows[i..]) == []
  {}

  lemma HoldingBytes(files: Files, cursors: map<Handle, Cursor>, h: Handle, t: Target, done: seq<byte>)
    requires Holding(files, cursors, h, t, done)
    ensures h in cursors && cursors[h].path in files && files[cursors[h].path] == Splice(t.base, t.at, done)
  {}

  /** The directory would go past what 32-bit fields can say. */
  predicate TooFar(fmt: Format, rows: seq<Row>, end: nat) {
    rows != [] && end + |rows| * fmt.RowSize() > U32_MAX
  }

  /** The file is the image of these rows, and the caches say where its directory is. */
  ghost predicate DirectoryWritten(base: seq<byte>, file: seq<byte>, fmt: Format, rows: seq<Row>, end: nat,
                                   dirOffset: nat, dirLength: nat)
  {
    && AllFit(fmt, rows)
    && DirOffset(rows, end) <= U32_MAX && |DirBytes(fmt, rows)| <= U32_MAX && Addressable(fmt, rows, end)
    && dirOffset == DirOffset(rows, end) && dirLength == |DirBytes(fmt, rows)|
    && file == Image(base, fmt, rows, end)
  }

  lemma BecomesImage(base: seq<byte>, file: seq<byte>, fmt: Format, rows: seq<Row>, end: nat, dirOffset: u32,
                     dirLength: u32)
    requires AllFit(fmt, rows) && Addressable(fmt, rows, end)
    requires dirOffset == DirOffset(rows, end) && dirLength == |DirBytes(fmt, rows)|
    requires file == Splice(Splice(base, end, DirBytes(fmt, rows)), 0, HeaderBytes(fmt, dirOffset, dirLength))
    ensures DirectoryWritten(base, file, fmt, rows, end, dirOffset, dirLength)
  {
    hide Splice, DirBytes, AllFit, HeaderBytes;
  }

  /** A written directory can be read back, and ends the file unless the file was longer before. */
  lemma WrittenReloads(base: seq<byte>, file: seq<byte>, fmt: Format, rows: seq<Row>, end: nat, dirOffset: nat,
                       dirLength: nat)
    requires DirectoryWritten(base, file, fmt, rows, end, dirOffset, dirLength)
    requires Writable(fmt, rows, end) && HEADER_SIZE <= |base|
    ensures Reloads(file, fmt, rows) && |file| == Max(|base|, dirOffset + dirLength)
  {
    hide Image, Reloads, Writable;
    ImageReloads(base, fmt, rows, end);
    ImageSize(base, fmt, rows, end);
  }

  /** Its header is in front and says where it is. */
  lemma WrittenHeader(base: seq<byte>, file: seq<byte>, fmt: Format, rows: seq<Row>, end: nat, dirOffset: nat,
                      dirLength: nat)
    requires DirectoryWritten(base, file, fmt, rows, end, dirOffset, dirLength) && HEADER_SIZE <= end
    ensures HeaderAt(file, fmt, dirOffset, dirLength)
  {
    hide HeaderBytes, DirBytes, AllFit;
    EmptyDirectory(fmt, rows);
    var header := HeaderBytes(fmt, dirOffset, dirLength);
    var before := Splice(base, end, DirBytes(fmt, rows));
    SpliceHere(before, 0, header);
    assert file[..HEADER_SIZE] == file[0..0 + |header|];
  }

  lemma WrittenIsFiled(base: seq<byte>, file: seq<byte>, fmt: Format, rows: seq<Row>, end: nat, dirOffset: nat,
                       dirLength: nat)
    requires DirectoryWritten(base, file, fmt, rows, end, dirOffset, dirLength) && Writable(fmt, rows, end)
    ensures Filed(file, fmt, rows, dirOffset, dirLength)
  {
    hide Image, Filed, Writable;
    ImageIsFiled(base, fmt, rows, end);
  }

  lemma ListEnds(list: EntryList)
    requires list.ListValid()
    ensures (list.head == null <==> list.Rows() == []) && list.count == |list.Rows()|
  {}

  /** Writes the directory behind the payloads and points the header at it. Payloads are not touched;
      the call refuses, before writing anything, to go past what a 32-bit field can say. */
  method WriteDirectory(disk: Disk, list: EntryList, fmt: Format, h: Handle, payloadEnd: nat, dirOffset0: nat,
                        dirLength0: nat)
    returns (s: Status, dirOffset: nat, dirLength: nat)
    requires disk.Valid() && disk.IsOpen(h) && HEADER_SIZE <= payloadEnd
    requires list.ListValid() && AllFit(fmt, list.Rows())
    modifies disk`cursors, disk`files, disk`log, disk`trouble
    ensures disk.Valid() && OnlyMoved(old(disk.cursors), disk.cursors, h) && (old(disk.trouble) ==> disk.trouble)
    ensures var p, rows := old(disk.cursors)[h].path, list.Rows();
            && Confined(old(disk.files), old(disk.log), disk.files, disk.log, p, payloadEnd)
            && (s == Ok || s == LimitError || (s == IoError && disk.trouble))
            && (s == LimitError <==> TooFar(fmt, rows, payloadEnd))
            && (s == LimitError <==> rows != [] && payloadEnd + |DirBytes(fmt, rows)| > 0xFFFF_FFFF)
            && (s == LimitError ==> disk.files == old(disk.files) && disk.log == old(disk.log))
            && (s == Ok ==>
                  DirectoryWritten(old(disk.files)[p], disk.files[p], fmt, rows, payloadEnd, dirOffset, dirLength))
  {
    hide Splice, DirBytes, AllFit, HeaderBytes, Confined, EntryList.ListValid, Format.RowSize, OnlyMoved,
      DirectoryWritten;
    NothingMoved(disk.cursors, h);
    ListEnds(list);
    NothingWritten(disk.files, disk.log, disk.cursors[h].path, payloadEnd);
    ghost var rows, base := list.Rows(), disk.files[disk.cursors[h].path];
    dirOffset, dirLength := dirOffset0, dirLength0;
    EmptyDirectory(fmt, rows);
    DirLength(fmt, rows);
    if list.head == null {
      dirOffset, dirLength := HEADER_SIZE, 0;
      assert Splice(base, payloadEnd, []) == base;
      s := RewriteHeader(disk, fmt, h, dirOffset, dirLength, payloadEnd);
      if s == Ok {
        StillThere(old(disk.files), old(disk.log), disk.files, disk.log, old(disk.cursors)[h].path, payloadEnd);
        BecomesImage(base, disk.files[old(disk.cursors)[h].path], fmt, rows, payloadEnd, dirOffset, dirLength);
      }
      return;
    }
    if payloadEnd + list.count * fmt.RowSize() > U32_MAX {
      return LimitError, dirOffset, dirLength;
    }
    dirOffset, dirLength := payloadEnd, 0;
    ghost var c0, p := disk.cursors, disk.cursors[h].path;
    var ok;
    ok, dirLength := WriteTable(disk, list, fmt, h, dirOffset);
    ghost var c1, f1, l1 := disk.cursors, disk.files, disk.log;
    if !ok { return IoError, dirOffset, dirLength; }
    s := RewriteHeader(disk, fmt, h, dirOffset, dirLength, payloadEnd);
    OnlyMovedChains(c0, c1, disk.cursors, h);
    ConfinedChains(old(disk.files), old(disk.log), f1, l1, disk.files, disk.log, p, payloadEnd);
    if s == Ok {
      StillThere(old(disk.files), old(disk.log), disk.files, disk.log, p, payloadEnd);
      BecomesImage(base, disk.files[p], fmt, rows, payloadEnd, dirOffset, dirLength);
    }
  }

  /** Goes to the place of the directory and writes its rows there. */
  method WriteTable(disk: Disk, list: EntryList, fmt: Format, h: Handle, at: nat) returns (ok: bool, dirLength: nat)
    requires disk.Valid() && disk.IsOpen(h) && list.ListValid() && AllFit(fmt, list.Rows())
    modifies disk`cursors, disk`files, disk`log, disk`trouble
    ensures disk.Valid() && OnlyMoved(old(disk.cursors), disk.cursors, h) && (old(disk.trouble) ==> disk.trouble)
    ensures var p := old(disk.cursors)[h].path;
            && Confined(old(disk.files), old(disk.log), disk.files, disk.log, p, at)
            && disk.IsOpen(h) && disk.cursors[h].path == p && (!ok ==> disk.trouble)
            && (ok ==> dirLength == |DirBytes(fmt, list.Rows())|
                       && disk.files[p] == Splice(old(disk.files)[p], at, DirBytes(fmt, list.Rows())))
  {
    hide Splice, DirBytes, AllFit, Confined, EntryList.ListValid, OnlyMoved;
    ghost var c0, base := disk.cursors, disk.files[disk.cursors[h].path];
    NothingWritten(disk.files, disk.log, c0[h].path, at);
    dirLength := 0;
    ok := disk.Seek(h, at);
    JustMoved(c0, disk.cursors, h);
    ghost var c1 := disk.cursors;
    if !ok { return; }
    assert Splice(base, at, []) == base;
    ok, dirLength := WriteRows(disk, list, fmt, h, Target(base, at, at));
    OnlyMovedChains(c0, c1, disk.cursors, h);
    OnlyMovedStays(c0, disk.cursors, h);
  }

  /** As WriteDirectory, with what is written flushed at the end. */
  method WriteAndFlush(disk: Disk, list: EntryList, fmt: Format, h: Handle, payloadEnd: nat, dirOffset0: nat,
                       dirLength0: nat)
    returns (s: Status, dirOffset: nat, dirLength: nat, ghost written: bool)
    requires disk.Valid() && disk.IsOpen(h) && HEADER_SIZE <= payloadEnd
    requires list.ListValid() && AllFit(fmt, list.Rows())
    modifies disk`cursors, disk`files, disk`log, disk`trouble
    ensures disk.Valid() && SameHandles(old(disk.cursors), disk.cursors) && (old(disk.trouble) ==> disk.trouble)
    ensures var p, rows := old(disk.cursors)[h].path, list.Rows();
            && Confined(old(disk.files), old(disk.log), disk.files, disk.log, p, payloadEnd)
            && (s == Ok || s == LimitError || (s == IoError && disk.trouble))
            && (s == LimitError <==> TooFar(fmt, rows, payloadEnd))
            && (s == LimitError ==> disk.files == old(disk.files)) && (s == Ok ==> written)
            && (written ==>
                  DirectoryWritten(old(disk.files)[p], disk.files[p], fmt, rows, payloadEnd, dirOffset, dirLength))
  {
    hide DirectoryWritten, TooFar, Confined, EntryList.ListValid;
    s, dirOffset, dirLength := WriteDirectory(disk, list, fmt, h, payloadEnd, dirOffset0, dirLength0);
    written := s == Ok;
    if s == Ok {
      var flushed := disk.Works();
      s := if flushed then Ok else IoError;
    }
  }
}
