/** Opening a PAK-class file: reading its header, telling formats apart, reading and checking its
    directory. */
module PakLoading {
  import opened ByteStrings
  import opened Outcomes
  import opened PakFormat
  import opened PakStates
  import opened PakCopying
  import opened EntryLists
  import opened Disks
  import opened Sorting

  // ----- Reading fields -----

  /** The next n bytes; a short read counts as none. */
  method ReadExactly(disk: Disk, h: Handle, n: nat) returns (data: Option<seq<byte>>)
    requires disk.Valid() && disk.IsOpen(h)
    modifies disk`cursors, disk`trouble
    ensures disk.Valid() && SameHandles(old(disk.cursors), disk.cursors) && (old(disk.trouble) ==> disk.trouble)
    ensures var c := old(disk.cursors)[h];
            var file := disk.files[c.path];
            && (data.Some? ==>
                  && (n > 0 ==> c.pos + n <= |file|) && data.value == Slice(file, c.pos, n) && |data.value| == n
                  && disk.cursors[h] == Cursor(c.path, c.pos + n))
            && (data.None? ==> disk.trouble || c.pos + n > |file|)
  {
    var got := disk.Read(h, n);
    data := if |got| == n then Some(got) else None;
  }

  method ReadNumber(disk: Disk, h: Handle) returns (n: Option<u32>)
    requires disk.Valid() && disk.IsOpen(h)
    modifies disk`cursors, disk`trouble
    ensures disk.Valid() && SameHandles(old(disk.cursors), disk.cursors) && (old(disk.trouble) ==> disk.trouble)
    ensures var c := old(disk.cursors)[h];
            var file := disk.files[c.path];
            && (n.Some? ==>
                  c.pos + 4 <= |file| && n.value == FieldAt(file, c.pos)
                    && disk.cursors[h] == Cursor(c.path, c.pos + 4))
            && (n.None? ==> disk.trouble || c.pos + 4 > |file|)
  {
    hide ReadU32;
    var data := ReadExactly(disk, h, 4);
    n := if data.Some? then Some(ReadU32(data.value)) else None;
  }

  method ReadTwo(disk: Disk, h: Handle) returns (n: Option<(u32, u32)>)
    requires disk.Valid() && disk.IsOpen(h)
    modifies disk`cursors, disk`trouble
    ensures disk.Valid() && SameHandles(old(disk.cursors), disk.cursors) && (old(disk.trouble) ==> disk.trouble)
    ensures var c := old(disk.cursors)[h];
            var file := disk.files[c.path];
            && (n.Some? ==>
                  && c.pos + 8 <= |file| && n.value == (FieldAt(file, c.pos), FieldAt(file, c.pos + 4))
                  && disk.cursors[h] == Cursor(c.path, c.pos + 8))
            && (n.None? ==> disk.trouble || c.pos + 8 > |file|)
  {
    hide ReadU32;
    var a := ReadNumber(disk, h);
    if a.None? { return None; }
    var b := ReadNumber(disk, h);
    if b.None? { return None; }
    return Some((a.value, b.value));
  }

  /** One directory row at byte `at` of the file, in terms of the file. */
  function RowAt(file: seq<byte>, fmt: Format, at: nat): Row
    requires at + fmt.RowSize() <= |file|
  {
    if fmt.Wad() then
      Row(CString(file[at + 8..at + 16]), FieldAt(file, at), FieldAt(file, at + 4), 0, false, 0, None, None)
    else
      var n := fmt.NameLen();
      var packed, flag := if fmt.Compresses() then FieldAt(file, at + n + 8) else 0,
                          if fmt.Compresses() then FieldAt(file, at + n + 12) else 0;
      Row(CString(file[at..at + n]), FieldAt(file, at + n), FieldAt(file, at + n + 4), packed, flag != 0, 0, None, None)
  }

  lemma RowAtParses(file: seq<byte>, fmt: Format, at: nat)
    requires at + fmt.RowSize() <= |file|
    ensures RowAt(file, fmt, at) == ParseRow(fmt, file[at..at + fmt.RowSize()])
  {
    hide ReadU32, CString;
    var n := fmt.RowSize();
    var s := file[at..at + n];
    forall p, q | 0 <= p <= q <= n ensures s[p..q] == file[at + p..at + q] {
      assert |s[p..q]| == |file[at + p..at + q]|;
      assert forall k :: 0 <= k < q - p ==> s[p..q][k] == file[at + p..at + q][k];
    }
    assert s[..fmt.NameLen()] == s[0..fmt.NameLen()];
    assert fmt.Wad() ==> s[8..] == s[8..16];
  }

  /** Reads the directory row at the handle's position, field by field. */
  method ReadRow(disk: Disk, h: Handle, fmt: Format) returns (r: Option<Row>)
    requires disk.Valid() && disk.IsOpen(h)
    requires disk.cursors[h].pos + fmt.RowSize() <= |disk.files[disk.cursors[h].path]|
    modifies disk`cursors, disk`trouble
    ensures disk.Valid() && SameHandles(old(disk.cursors), disk.cursors) && (old(disk.trouble) ==> disk.trouble)
    ensures var c := old(disk.cursors)[h];
            var file := disk.files[c.path];
            && (r.Some? ==>
                  r.value == RowAt(file, fmt, c.pos) && disk.cursors[h] == Cursor(c.path, c.pos + fmt.RowSize()))
            && (r.None? ==> disk.trouble)
  {
    hide CString, ReadU32;
    if fmt.Wad() {
      var place := ReadTwo(disk, h);
      if place.None? { return None; }
      var name := ReadExactly(disk, h, fmt.NameLen());
      if name.None? { return None; }
      return Some(Row(CString(name.value), place.value.0, place.value.1, 0, false, 0, None, None));
    }
    var name := ReadExactly(disk, h, fmt.NameLen());
    if name.None? { return None; }
    var place := ReadTwo(disk, h);
    if place.None? { return None; }
    var packing := (0, 0);
    if fmt.Compresses() {
      var p := ReadTwo(disk, h);
      if p.None? { return None; }
      packing := p.value;
    }
    return Some(Row(CString(name.value), place.value.0, place.value.1, packing.0, packing.1 != 0, 0, None, None));
  }

  // ----- Telling Quake and Daikatana apart -----

  /** The rows of the directory that starts at `at` and ends at `end`. */
  function RowsFrom(file: seq<byte>, fmt: Format, at: nat, end: nat): seq<Row>
    requires at <= end <= |file|
  {
    ParseDir(fmt, file[at..end])
  }

  lemma FirstRow(file: seq<byte>, fmt: Format, at: nat, end: nat)
    requires at < end <= |file| && (end - at) % fmt.RowSize() == 0
    ensures at + fmt.RowSize() <= end && (end - (at + fmt.RowSize())) % fmt.RowSize() == 0
    ensures RowsFrom(file, fmt, at, end) == [RowAt(file, fmt, at)] + RowsFrom(file, fmt, at + fmt.RowSize(), end)
  {
    hide ParseRow, RowAt;
    MoreRows(fmt, end - at);
    RowAtParses(file, fmt, at);
    var s := file[at..end];
    assert s[..fmt.RowSize()] == file[at..at + fmt.RowSize()];
    assert s[fmt.RowSize()..] == file[at + fmt.RowSize()..end];
  }

  lemma MoreRows(fmt: Format, n: nat)
    requires n > 0 && n % fmt.RowSize() == 0
    ensures n >= fmt.RowSize() && (n - fmt.RowSize()) % fmt.RowSize() == 0
  {}

  /** Reads only the fields that place a row's payload. */
  method ProbeRow(disk: Disk, h: Handle, fmt: Format, at: nat, size: nat) returns (fits: bool)
    requires disk.Valid() && disk.IsOpen(h) && !fmt.Wad() && at + fmt.RowSize() <= |disk.files[disk.cursors[h].path]|
    modifies disk`cursors, disk`trouble
    ensures disk.Valid() && SameHandles(old(disk.cursors), disk.cursors) && (old(disk.trouble) ==> disk.trouble)
    ensures var ok := InRange(fmt, RowAt(disk.files[disk.cursors[h].path], fmt, at), size);
            (fits ==> ok) && (!fits ==> disk.trouble || !ok)
  {
    hide ReadU32, CString;
    var ok := disk.Seek(h, at + fmt.NameLen());
    if !ok { return false; }
    var place := ReadTwo(disk, h);
    if place.None? { return false; }
    var offset, extent := place.value.0, place.value.1;
    if fmt.Compresses() {
      var packing := ReadTwo(disk, h);
      if packing.None? { return false; }
      if packing.value.1 != 0 { extent := packing.value.0; }
    }
    return !(offset < HEADER_SIZE || extent > size || offset > size - extent);
  }

  /** Whether the directory reads as one of this format; an unreadable one does not. */
  method ProbeLayout(disk: Disk, h: Handle, fmt: Format, dirOffset: u32, dirLength: u32, size: nat) returns (fits: bool)
    requires disk.Valid() && disk.IsOpen(h) && !fmt.Wad() && size == |disk.files[disk.cursors[h].path]|
    requires dirOffset + dirLength <= size
    modifies disk`cursors, disk`trouble
    ensures disk.Valid() && SameHandles(old(disk.cursors), disk.cursors) && (old(disk.trouble) ==> disk.trouble)
    ensures var ok := Probe(disk.files[disk.cursors[h].path], fmt, dirOffset, dirLength);
            (fits ==> ok) && (!fits ==> disk.trouble || !ok)
  {
    hide ParseDir, RowAt, InRange;
    if dirLength % fmt.RowSize() != 0 || dirLength / fmt.RowSize() > MAX_ENTRIES {
      return false;
    }
    ghost var file := disk.files[disk.cursors[h].path];
    var at, end := dirOffset as int, dirOffset + dirLength;
    while at < end
      invariant disk.Valid() && SameHandles(old(disk.cursors), disk.cursors) && (old(disk.trouble) ==> disk.trouble)
      invariant dirOffset <= at <= end && (end - at) % fmt.RowSize() == 0
      invariant (forall r <- RowsFrom(file, fmt, dirOffset, end) :: InRange(fmt, r, size))
           <==> (forall r <- RowsFrom(file, fmt, at, end) :: InRange(fmt, r, size))
    {
      FirstRow(file, fmt, at, end);
      fits := ProbeRow(disk, h, fmt, at, size);
      if !fits {
        assert RowAt(file, fmt, at) in RowsFrom(file, fmt, at, end);
        return;
      }
      at := at + fmt.RowSize();
    }
    NoRows(fmt, file, end);
    return true;
  }

  lemma NoRows(fmt: Format, file: seq<byte>, end: nat)
    requires end <= |file|
    ensures RowsFrom(file, fmt, end, end) == []
  {
    assert fmt.RowSize() > 0;
  }

  // ----- The header -----

  /** Reads the header fields in the order of the format, and checks them against the file's size. */
  method ReadHeader(disk: Disk, h: Handle, fmt: Format, size: nat) returns (r: Result<Header>)
    requires disk.Valid() && disk.IsOpen(h) && size == |disk.files[disk.cursors[h].path]| && disk.cursors[h].pos == 4
    modifies disk`cursors, disk`trouble
    ensures disk.Valid() && SameHandles(old(disk.cursors), disk.cursors) && (old(disk.trouble) ==> disk.trouble)
    ensures r != Failure(Ok)
    ensures r == ParseHeader(disk.files[disk.cursors[h].path], fmt) || (disk.trouble && r == Failure(IoError))
  {
    hide ReadU32;
    var a := ReadNumber(disk, h);
    if a.None? { return Failure(IoError); }
    var b := ReadNumber(disk, h);
    if b.None? { return Failure(IoError); }
    var dirOffset, dirLength := a.value, b.value;
    if fmt.Wad() {
      if a.value > MAX_ENTRIES { return Failure(LimitError); }
      dirOffset, dirLength := b.value, a.value * 16;
    }
    if dirOffset < HEADER_SIZE || dirLength > size || dirOffset > size - dirLength {
      return Failure(FormatError);
    }
    return Success(Header(fmt, dirOffset, dirLength));
  }

  /** Settles the format, probing both layouts where the signature leaves it open. */
  method Settle(disk: Disk, h: Handle, header: Header, hint: Hint, size: nat) returns (r: Result<Header>)
    requires disk.Valid() && disk.IsOpen(h) && size == |disk.files[disk.cursors[h].path]|
    requires header.dirOffset + header.dirLength <= size
    modifies disk`cursors, disk`trouble
    ensures disk.Valid() && SameHandles(old(disk.cursors), disk.cursors) && (old(disk.trouble) ==> disk.trouble)
    ensures r != Failure(Ok)
    ensures r == SettleFormat(disk.files[disk.cursors[h].path], header, hint) || disk.trouble
    ensures (header.format.Pak? || header.format.Daikatana?) && hint.Auto? && header.dirLength > 0 ==>
      if r.Success? then Probe(disk.files[disk.cursors[h].path], r.value.format, header.dirOffset, header.dirLength)
      else r == Failure(FormatError)
    ensures r.Success? ==>
      && r == WithFormat(header, r.value.format)
      && (r.value.format == header.format
          || ((header.format.Pak? || header.format.Daikatana?) && hint.Auto?
              && (r.value.format.Pak? || r.value.format.Daikatana?)))
  {
    hide Probe;
    var fmt := header.format;
    if (fmt.Pak? || fmt.Daikatana?) && hint.Auto? {
      if header.dirLength == 0 {
        fmt := Pak;
      } else {
        var pak := ProbeLayout(disk, h, Pak, header.dirOffset, header.dirLength, size);
        var dk := ProbeLayout(disk, h, Daikatana, header.dirOffset, header.dirLength, size);
        if pak == dk { return Failure(FormatError); }
        fmt := if pak then Pak else Daikatana;
        ProbedFits(disk.files[disk.cursors[h].path], fmt, header);
      }
    }
    return WithFormat(header, fmt);
  }

  lemma ProbedFits(file: seq<byte>, fmt: Format, header: Header)
    requires header.dirOffset + header.dirLength <= |file| && Probe(file, fmt, header.dirOffset, header.dirLength)
    ensures WithFormat(header, fmt).Success?
  {}

  /** Measures the file and reads its signature. */
  method ReadSignature(disk: Disk, h: Handle) returns (signature: Option<seq<byte>>, size: nat)
    requires disk.Valid() && disk.IsOpen(h)
    modifies disk`cursors, disk`trouble
    ensures disk.Valid() && SameHandles(old(disk.cursors), disk.cursors) && (old(disk.trouble) ==> disk.trouble)
    ensures var file := disk.files[disk.cursors[h].path];
            && (signature.Some? ==>
                  |file| >= 4 && signature.value == file[..4] && disk.cursors[h].pos == 4 && size == |file|)
            && (signature.None? ==> disk.trouble || |file| < 4)
  {
    size := 0;
    var end := disk.SeekEnd(h);
    if end.None? { return None, size; }
    size := end.value;
    var ok := disk.Seek(h, 0);
    if !ok { return None, size; }
    signature := ReadExactly(disk, h, 4);
  }

  /** Everything up to the directory. An unreadable probe can settle an ambiguous file; the format is
      then still one under whose name the header reads the same. */
  method LoadPakfile(disk: Disk, h: Handle, hint: Hint) returns (r: Result<Header>, size: nat)
    requires disk.Valid() && disk.IsOpen(h)
    modifies disk`cursors, disk`trouble
    ensures disk.Valid() && SameHandles(old(disk.cursors), disk.cursors) && (old(disk.trouble) ==> disk.trouble)
    ensures var file := disk.files[disk.cursors[h].path];
            && (r == LoadHeader(file, hint) || disk.trouble) && r != Failure(Ok)
            && (r.Success? ==>
                  LoadHeader(file, As(r.value.format)) == r && size == |file|
                    && (hint.As? ==> r.value.format == hint.format))
            && (r.Success? && hint.Auto? && (r.value.format.Pak? || r.value.format.Daikatana?)
                && r.value.dirLength > 0 ==>
                  Probe(file, r.value.format, r.value.dirOffset, r.value.dirLength))
  {
    hide Probe, ParseHeader, SettleFormat, Classify, WithFormat;
    var signature;
    signature, size := ReadSignature(disk, h);
    if signature.None? { return Failure(IoError), size; }
    var magic := Classify(signature.value, hint);
    ClassifyKinds(signature.value, hint);
    if hint.As? { ClassifyAs(signature.value, hint.format); }
    if magic.Failure? { return Failure(magic.status), size; }
    if magic.value.Zip? { return Failure(Unsupported), size; }
    r := ReadHeader(disk, h, magic.value.format, size);
    if r.Failure? { return; }
    r := Settle(disk, h, r.value, hint, size);
    if r.Success? { NamedHeader(disk.files[disk.cursors[h].path], hint, r.value.format); }
  }

  // ----- The directory -----

  /** Reads the directory into a fresh list, refusing the first row whose payload is not in the file. */
  method LoadDirectory(disk: Disk, h: Handle, header: Header, size: nat)
    returns (s: Status, list: EntryList, payloadEnd: nat)
    requires disk.Valid() && disk.IsOpen(h) && size == |disk.files[disk.cursors[h].path]|
    requires header.dirOffset + header.dirLength <= size && header.dirLength % header.format.RowSize() == 0
    modifies disk`cursors, disk`trouble
    ensures disk.Valid() && SameHandles(old(disk.cursors), disk.cursors) && (old(disk.trouble) ==> disk.trouble)
    ensures fresh(list) && list.ListValid() && forall i :: 0 <= i < |list.nodes| ==> fresh(list.nodes[i])
    ensures var fmt := header.format;
            var rows :=
              RowsFrom(disk.files[disk.cursors[h].path], fmt, header.dirOffset, header.dirOffset + header.dirLength);
            && (s == Ok ==>
                  list.Rows() == rows && payloadEnd == PayloadEnd(rows) && forall r <- rows :: InRange(fmt, r, size))
            && (s == FormatError ==> exists r <- rows :: !InRange(fmt, r, size))
            && (s !in {Ok, FormatError} ==> disk.trouble && s in {IoError, NoMemory})
  {
    hide RowsFrom, InRange, EntryList.ListValid, PayloadEnd, Format.RowSize, Loaded;
    ghost var file := disk.files[disk.cursors[h].path];
    var at, end := header.dirOffset as int, header.dirOffset + header.dirLength;
    list := new EntryList();
    payloadEnd := HEADER_SIZE;
    NoPayload();
    if at == end {
      NothingLoaded(file, header.format, at, end, size);
      AllLoaded(file, header.format, RowsFrom(file, header.format, at, end), [], end, size);
      return Ok, list, payloadEnd;
    }
    var ok := disk.Seek(h, at);
    if !ok { return IoError, list, payloadEnd; }
    s, payloadEnd := LoadRows(disk, h, header.format, at, end, size, list);
  }

  /** Reads row after row from the handle's place `from` up to `end`. */
  method LoadRows(disk: Disk, h: Handle, fmt: Format, from: nat, end: nat, size: nat, list: EntryList)
    returns (s: Status, payloadEnd: nat)
    requires disk.Valid() && disk.IsOpen(h) && size == |disk.files[disk.cursors[h].path]| && disk.cursors[h].pos == from
    requires from <= end <= size && (end - from) % fmt.RowSize() == 0
    requires list.ListValid() && list.nodes == [] && list.Rows() == []
    modifies disk`cursors, disk`trouble, list
    ensures disk.Valid() && SameHandles(old(disk.cursors), disk.cursors) && (old(disk.trouble) ==> disk.trouble)
    ensures list.ListValid() && forall i :: 0 <= i < |list.nodes| ==> fresh(list.nodes[i])
    ensures var rows := RowsFrom(disk.files[disk.cursors[h].path], fmt, from, end);
            && (s == Ok ==>
                  list.Rows() == rows && payloadEnd == PayloadEnd(rows) && forall r <- rows :: InRange(fmt, r, size))
            && (s == FormatError ==> exists r <- rows :: !InRange(fmt, r, size))
            && (s !in {Ok, FormatError} ==> disk.trouble && s in {IoError, NoMemory})
  {
    hide RowsFrom, InRange, EntryList.ListValid, PayloadEnd, Format.RowSize, Loaded;
    ghost var file := disk.files[disk.cursors[h].path];
    ghost var rows := RowsFrom(file, fmt, from, end);
    var at := from;
    payloadEnd := HEADER_SIZE;
    NoPayload();
    NothingLoaded(file, fmt, at, end, size);
    while at < end
      invariant disk.Valid() && SameHandles(old(disk.cursors), disk.cursors) && (old(disk.trouble) ==> disk.trouble)
      invariant list.ListValid() && forall i :: 0 <= i < |list.nodes| ==> fresh(list.nodes[i])
      invariant from <= at <= end && (end - at) % fmt.RowSize() == 0 && disk.cursors[h].pos == at
      invariant Loaded(file, fmt, rows, list.Rows(), at, end, size) && payloadEnd == PayloadEnd(list.Rows())
    {
      s, payloadEnd := LoadNext(disk, h, fmt, size, list, payloadEnd, rows, at, end);
      if s != Ok {
        return;
      }
      at := at + fmt.RowSize();
    }
    AllLoaded(file, fmt, rows, list.Rows(), end, size);
    s := Ok;
  }

  /** `done` is what has been read of the rows, up to position `at`; all of it is in range. */
  ghost predicate Loaded(file: seq<byte>, fmt: Format, rows: seq<Row>, done: seq<Row>, at: nat, end: nat, size: nat)
    requires at <= end <= |file|
  {
    done + RowsFrom(file, fmt, at, end) == rows && forall r <- done :: InRange(fmt, r, size)
  }

  lemma NothingLoaded(file: seq<byte>, fmt: Format, at: nat, end: nat, size: nat)
    requires at <= end <= |file|
    ensures Loaded(file, fmt, RowsFrom(file, fmt, at, end), [], at, end, size)
  {
    hide RowsFrom;
    var rows := RowsFrom(file, fmt, at, end);
    assert [] + rows == rows;
  }

  lemma LoadedStep(file: seq<byte>, fmt: Format, rows: seq<Row>, done: seq<Row>, at: nat, end: nat, size: nat)
    requires at < end <= |file| && at + fmt.RowSize() <= end && Loaded(file, fmt, rows, done, at, end, size)
    requires RowsFrom(file, fmt, at, end) == [RowAt(file, fmt, at)] + RowsFrom(file, fmt, at + fmt.RowSize(), end)
    ensures var r := RowAt(file, fmt, at);
            if InRange(fmt, r, size) then Loaded(file, fmt, rows, done + [r], at + fmt.RowSize(), end, size)
            else exists q <- rows :: !InRange(fmt, q, size)
  {
    hide RowAt, InRange, RowsFrom;
    var r, rest := RowAt(file, fmt, at), RowsFrom(file, fmt, at + fmt.RowSize(), end);
    assert rows == done + [r] + rest && rows[|done|] == r;
  }

  lemma AllLoaded(file: seq<byte>, fmt: Format, rows: seq<Row>, done: seq<Row>, end: nat, size: nat)
    requires end <= |file| && Loaded(file, fmt, rows, done, end, end, size)
    ensures done == rows && forall r <- rows :: InRange(fmt, r, size)
  {
    NoRows(fmt, file, end);
  }

  lemma NoPayload()
    ensures PayloadEnd([]) == HEADER_SIZE
  {}

  /** One turn of the loop, seen from the whole directory. */
  method LoadNext(disk: Disk, h: Handle, fmt: Format, size: nat, list: EntryList, end0: nat, ghost rows: seq<Row>,
                  ghost at: nat, ghost end: nat)
    returns (s: Status, payloadEnd: nat)
    requires disk.Valid() && disk.IsOpen(h) && list.ListValid() && end0 == PayloadEnd(list.Rows())
    requires size == |disk.files[disk.cursors[h].path]| && disk.cursors[h].pos == at
    requires at < end <= size && (end - at) % fmt.RowSize() == 0
    requires Loaded(disk.files[disk.cursors[h].path], fmt, rows, list.Rows(), at, end, size)
    modifies disk`cursors, disk`trouble, list, list.nodes`next
    ensures disk.Valid() && SameHandles(old(disk.cursors), disk.cursors) && (old(disk.trouble) ==> disk.trouble)
    ensures list.ListValid() && forall i :: 0 <= i < |list.nodes| ==>
      list.nodes[i] in old(list.nodes) || fresh(list.nodes[i])
    ensures s == Ok ==>
      var next := at + fmt.RowSize();
      && next <= end && (end - next) % fmt.RowSize() == 0 && disk.cursors[h].pos == next
      && Loaded(disk.files[old(disk.cursors)[h].path], fmt, rows, list.Rows(), next, end, size)
      && payloadEnd == PayloadEnd(list.Rows())
    ensures s == FormatError ==> exists r <- rows :: !InRange(fmt, r, size)
    ensures s !in {Ok, FormatError} ==> disk.trouble && s in {IoError, NoMemory}
  {
    hide RowsFrom, InRange, EntryList.ListValid, PayloadEnd, Format.RowSize, Loaded;
    ghost var file := disk.files[disk.cursors[h].path];
    FirstRow(file, fmt, at, end);
    LoadedStep(file, fmt, rows, list.Rows(), at, end, size);
    s, payloadEnd := LoadEntry(disk, h, fmt, size, list, end0);
  }

  /** Reads one row and links it. */
  method LoadEntry(disk: Disk, h: Handle, fmt: Format, size: nat, list: EntryList, end0: nat)
    returns (s: Status, end: nat)
    requires disk.Valid() && disk.IsOpen(h) && list.ListValid() && end0 == PayloadEnd(list.Rows())
    requires disk.cursors[h].pos + fmt.RowSize() <= |disk.files[disk.cursors[h].path]|
    modifies disk`cursors, disk`trouble, list, list.nodes`next
    ensures disk.Valid() && SameHandles(old(disk.cursors), disk.cursors) && (old(disk.trouble) ==> disk.trouble)
    ensures list.ListValid() && forall i :: 0 <= i < |list.nodes| ==>
      list.nodes[i] in old(list.nodes) || fresh(list.nodes[i])
    ensures var c := old(disk.cursors)[h];
            var r := RowAt(disk.files[c.path], fmt, c.pos);
            && (s == Ok ==>
                  && list.Rows() == old(list.Rows()) + [r] && end == PayloadEnd(list.Rows()) && InRange(fmt, r, size)
                  && disk.cursors[h] == Cursor(c.path, c.pos + fmt.RowSize()))
            && (s == FormatError ==> !InRange(fmt, r, size))
            && (s !in {Ok, FormatError} ==> disk.trouble && s in {IoError, NoMemory})
  {
    hide RowAt, InRange, EntryList.ListValid, PayloadEnd, Format.RowSize;
    var row;
    end := end0;
    s, row := ReadEntry(disk, h, fmt, size);
    if s == Ok {
      LongerPayload(list.Rows(), row);
      end := Max(end0, row.End());
      var entry := new Entry(row);
      list.Link(entry);
    }
  }

  lemma LongerPayload(rows: seq<Row>, r: Row)
    ensures PayloadEnd(rows + [r]) == Max(PayloadEnd(rows), r.End())
  {
    assert (rows + [r])[..|rows|] == rows;
  }

  method ReadEntry(disk: Disk, h: Handle, fmt: Format, size: nat) returns (s: Status, row: Row)
    requires disk.Valid() && disk.IsOpen(h)
    requires disk.cursors[h].pos + fmt.RowSize() <= |disk.files[disk.cursors[h].path]|
    modifies disk`cursors, disk`trouble
    ensures disk.Valid() && SameHandles(old(disk.cursors), disk.cursors) && (old(disk.trouble) ==> disk.trouble)
    ensures var c := old(disk.cursors)[h];
            var r := RowAt(disk.files[c.path], fmt, c.pos);
            && (s == Ok ==>
                  row == r && InRange(fmt, r, size) && disk.cursors[h] == Cursor(c.path, c.pos + fmt.RowSize()))
            && (s == FormatError ==> !InRange(fmt, r, size))
            && (s !in {Ok, FormatError} ==> disk.trouble && s in {IoError, NoMemory})
  {
    hide RowAt;
    row := Row([], 0, 0, 0, false, 0, None, None);
    var haveMemory := disk.Works();
    if !haveMemory { return NoMemory, row; }
    var r := ReadRow(disk, h, fmt);
    if r.None? { return IoError, row; }
    row := r.value;
    var belowHeader := fmt.Wad() && row.length == 0;
    var extent := row.Extent();
    if (!belowHeader && row.offset < HEADER_SIZE) || extent > size || row.offset > size - extent {
      return FormatError, row;
    }
    return Ok, row;
  }

  /** Sorts the names and compares neighbours. */
  method ValidateNoDuplicates(disk: Disk, list: EntryList, fmt: Format) returns (s: Status)
    requires list.ListValid()
    modifies disk`trouble
    ensures old(disk.trouble) ==> disk.trouble
    ensures s == Ok ==> fmt.Wad() || DistinctNames(list.Rows())
    ensures s == Duplicate ==> !fmt.Wad() && !DistinctNames(list.Rows())
    ensures s !in {Ok, Duplicate} ==> disk.trouble && s == NoMemory
  {
    hide Distinct, DistinctNames, EntryList.ListValid;
    if fmt.Wad() { return Ok; }
    var rows := list.Snapshot();
    if |rows| <= 1 {
      FewNames(rows);
      return Ok;
    }
    var haveMemory := disk.Works();
    if !haveMemory { return NoMemory; }
    NamesDistinct(rows);
    var twice := HasDuplicates(Names(rows));
    return if twice then Duplicate else Ok;
  }

  method HasDuplicates(names: seq<seq<int>>) returns (twice: bool)
    requires names != []
    ensures twice <==> !Distinct(names)
  {
    hide StringLe, Distinct;
    var sorted := Sort(names, StringLe);
    StringOrder();
    SortSorts(names, StringLe);
    for j := 1 to |sorted|
      invariant forall i :: 0 < i < j ==> sorted[i - 1] != sorted[i]
    {
      if sorted[j - 1] == sorted[j] {
        TwiceInBoth(names, sorted, j - 1, j);
        return true;
      }
    }
    SortedDistinct(sorted, StringLe);
    DistinctPermutes(sorted, names);
    return false;
  }

  lemma TwiceInBoth<T>(s: seq<T>, t: seq<T>, i: nat, j: nat)
    requires multiset(s) == multiset(t) && i < j < |t| && t[i] == t[j]
    ensures !Distinct(s)
  {
    OccursTwice(t, i, j);
    if Distinct(s) { DistinctOccurOnce(s, t[i]); }
  }

  function Names(rows: seq<Row>): (n: seq<seq<int>>)
    ensures |n| == |rows| && forall i :: 0 <= i < |n| ==> n[i] == rows[i].name
  {
    seq(|rows|, i requires 0 <= i < |rows| => rows[i].name)
  }

  lemma FewNames(rows: seq<Row>)
    requires |rows| <= 1
    ensures DistinctNames(rows)
  {}

  lemma NamesDistinct(rows: seq<Row>)
    ensures Distinct(Names(rows)) <==> DistinctNames(rows)
  {}
}
