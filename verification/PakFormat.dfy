/** The PAK-class container on disk: a 12-byte header, payloads, and a directory of fixed-size
    rows. Five formats share it and differ in signature, row layout and header field order. */
module PakFormat {
  import opened ByteStrings
  import opened Outcomes

  const HEADER_SIZE := 12
  const MAX_ENTRIES := 1048576

  /** The cap on unpacked sizes that an opened archive starts with. */
  const DEFAULT_MAX_DECOMPRESSED := 64 * 1024 * 1024

  function Max(a: nat, b: nat): nat {
    if a < b then b else a
  }

  datatype Format = Pak | Sin | Daikatana | Iwad | Pwad {
    function Signature(): (s: seq<byte>)
      ensures |s| == 4
    {
      match this
      case Pak => [0x50, 0x41, 0x43, 0x4B]
      case Sin => [0x53, 0x50, 0x41, 0x4B]
      case Daikatana => [0x50, 0x41, 0x43, 0x4B]
      case Iwad => [0x49, 0x57, 0x41, 0x44]
      case Pwad => [0x50, 0x57, 0x41, 0x44]
    }

    function NameLen(): nat {
      match this
      case Sin => 120
      case Iwad => 8
      case Pwad => 8
      case _ => 56
    }

    function RowSize(): (n: nat)
      ensures n > 0
    {
      NameLen() + if Compresses() then 16 else 8
    }

    predicate Compresses() { Daikatana? }

    predicate Wad() { Iwad? || Pwad? }
  }

  /** One directory entry. Its payload is on disk at `offset`, or staged: the path of a source
      file with its checksum at the time it was added, or bytes held in memory. */
  datatype Row = Row(name: seq<byte>, offset: nat, length: nat, packed: nat, compressed: bool,
                     crc: bv32, source: Option<string>, data: Option<seq<byte>>)
  {
    /** The bytes the payload takes up in a file. */
    function Extent(): nat {
      if compressed then packed else length
    }

    predicate Staged() { source.Some? || data.Some? }

    function End(): nat { offset + Extent() }

    /** What the directory records about the row. */
    function Recorded(): Row {
      this.(crc := 0, source := None, data := None)
    }
  }

  /** The row's fields fit the format's fixed-width fields. */
  predicate Fits(fmt: Format, r: Row) {
    && |r.name| <= fmt.NameLen() && 0 !in r.name
    && r.offset <= U32_MAX && r.length <= U32_MAX && r.packed <= U32_MAX
    && (!fmt.Compresses() ==> r.packed == 0 && !r.compressed)
  }

  // ----- Rows as bytes -----

  /** A C string padded to its field. */
  function NameField(name: seq<byte>, cap: nat): (s: seq<byte>)
    requires |name| <= cap
    ensures |s| == cap
  {
    name + Repeat(0, cap - |name|)
  }

  /** The C string at the front of a field. */
  function CString(s: seq<byte>): (r: seq<byte>)
    ensures |r| <= |s| && 0 !in r
    decreases |s|
  {
    if s == [] || s[0] == 0 then [] else [s[0]] + CString(s[1..])
  }

  lemma {:induction false} CStringOfField(name: seq<byte>, n: nat)
    requires 0 !in name
    ensures CString(name + Repeat(0, n)) == name
    decreases |name|
  {
    var s := name + Repeat(0, n);
    if name != [] {
      assert s[1..] == name[1..] + Repeat(0, n);
      CStringOfField(name[1..], n);
    }
  }

  function RowBytes(fmt: Format, r: Row): (s: seq<byte>)
    requires Fits(fmt, r)
    ensures |s| == fmt.RowSize()
  {
    var name := NameField(r.name, fmt.NameLen());
    var place := U32Bytes(r.offset) + U32Bytes(r.length);
    if fmt.Wad() then place + name
    else if fmt.Compresses() then
      name + place + U32Bytes(r.packed) + U32Bytes(if r.compressed then 1 else 0)
    else name + place
  }

  /** The four-byte field at position p. */
  function FieldAt(s: seq<byte>, p: nat): u32
    requires p + 4 <= |s|
  {
    ReadU32(s[p..p + 4])
  }

  function ParseRow(fmt: Format, s: seq<byte>): Row
    requires |s| == fmt.RowSize()
  {
    if fmt.Wad() then
      Row(CString(s[8..]), FieldAt(s, 0), FieldAt(s, 4), 0, false, 0, None, None)
    else
      var n := fmt.NameLen();
      var packed, flag := if fmt.Compresses() then FieldAt(s, n + 8) else 0,
                          if fmt.Compresses() then FieldAt(s, n + 12) else 0;
      Row(CString(s[..n]), FieldAt(s, n), FieldAt(s, n + 4), packed, flag != 0, 0, None, None)
  }

  lemma ParsedRowFits(fmt: Format, s: seq<byte>)
    requires |s| == fmt.RowSize()
    ensures Fits(fmt, ParseRow(fmt, s)) && ParseRow(fmt, s).Recorded() == ParseRow(fmt, s)
  {}

  /** Reading a written row gives back all that the directory records. */
  lemma RowRoundTrip(fmt: Format, r: Row)
    requires Fits(fmt, r)
    ensures ParseRow(fmt, RowBytes(fmt, r)) == r.Recorded()
  {
    if fmt.Wad() {
      WadRowRoundTrip(fmt, r);
    } else if fmt.Compresses() {
      DaikatanaRowRoundTrip(r);
    } else {
      PakRowRoundTrip(fmt, r);
    }
  }

  lemma WadRowRoundTrip(fmt: Format, r: Row)
    requires Fits(fmt, r) && fmt.Wad()
    ensures ParseRow(fmt, RowBytes(fmt, r)) == r.Recorded()
  {
    hide ReadU32, U32Bytes, CString;
    var name, o, l := NameField(r.name, 8), U32Bytes(r.offset), U32Bytes(r.length);
    var s := RowBytes(fmt, r);
    CStringOfField(r.name, 8 - |r.name|);
    U32RoundTrip(r.offset);
    U32RoundTrip(r.length);
    Middle([], o, l + name, s);
    Middle(o, l, name, s);
    Middle(o + l, name, [], s);
    assert s[8..] == name;
  }

  lemma PakRowRoundTrip(fmt: Format, r: Row)
    requires Fits(fmt, r) && !fmt.Wad() && !fmt.Compresses()
    ensures ParseRow(fmt, RowBytes(fmt, r)) == r.Recorded()
  {
    hide ReadU32, U32Bytes, CString, NameField;
    var n := fmt.NameLen();
    var name, o, l := NameField(r.name, n), U32Bytes(r.offset), U32Bytes(r.length);
    var s := RowBytes(fmt, r);
    NameBack(r.name, n);
    U32RoundTrip(r.offset);
    U32RoundTrip(r.length);
    Middle([], name, o + l, s);
    assert s[..n] == name;
    Middle(name, o, l, s);
    Middle(name + o, l, [], s);
  }

  lemma DaikatanaRowRoundTrip(r: Row)
    requires Fits(Daikatana, r)
    ensures ParseRow(Daikatana, RowBytes(Daikatana, r)) == r.Recorded()
  {
    hide ReadU32, U32Bytes, CString, NameField;
    var n := Daikatana.NameLen();
    var name, o, l := NameField(r.name, n), U32Bytes(r.offset), U32Bytes(r.length);
    var k, c := U32Bytes(r.packed), U32Bytes(if r.compressed then 1 else 0);
    var s := RowBytes(Daikatana, r);
    assert s == name + o + l + k + c;
    NameBack(r.name, n);
    U32RoundTrip(r.offset);
    U32RoundTrip(r.length);
    U32RoundTrip(r.packed);
    U32RoundTrip(if r.compressed then 1 else 0);
    assert s[..n] == name;
    Middle(name, o, l + k + c, s);
    Middle(name + o, l, k + c, s);
    Middle(name + o + l, k, c, s);
    Middle(name + o + l + k, c, [], s);
  }

  lemma NameBack(name: seq<byte>, cap: nat)
    requires |name| <= cap && 0 !in name
    ensures CString(NameField(name, cap)) == name
  {
    CStringOfField(name, cap - |name|);
  }

  lemma Middle(a: seq<byte>, b: seq<byte>, c: seq<byte>, s: seq<byte>)
    requires s == a + b + c
    ensures s[|a|..|a| + |b|] == b
  {}

  // ----- The directory -----

  predicate AllFit(fmt: Format, rows: seq<Row>) {
    forall r <- rows :: Fits(fmt, r)
  }

  function DirBytes(fmt: Format, rows: seq<Row>): seq<byte>
    requires AllFit(fmt, rows)
    decreases |rows|
  {
    if rows == [] then [] else RowBytes(fmt, rows[0]) + DirBytes(fmt, rows[1..])
  }

  /** The rows of a directory, up to an incomplete one. */
  function ParseDir(fmt: Format, s: seq<byte>): seq<Row>
    decreases |s|
  {
    if |s| < fmt.RowSize() then []
    else [ParseRow(fmt, s[..fmt.RowSize()])] + ParseDir(fmt, s[fmt.RowSize()..])
  }

  function Recorded(rows: seq<Row>): (r: seq<Row>)
    ensures |r| == |rows| && forall i :: 0 <= i < |rows| ==> r[i] == rows[i].Recorded()
  {
    seq(|rows|, i requires 0 <= i < |rows| => rows[i].Recorded())
  }

  lemma {:induction false} DirLength(fmt: Format, rows: seq<Row>)
    requires AllFit(fmt, rows)
    ensures |DirBytes(fmt, rows)| == |rows| * fmt.RowSize()
    decreases |rows|
  {
    hide RowBytes, Fits;
    if rows != [] {
      DirLength(fmt, rows[1..]);
      OneMoreRow(fmt, |rows| - 1);
    }
  }

  lemma OneMoreRow(fmt: Format, n: nat)
    ensures (n + 1) * fmt.RowSize() == n * fmt.RowSize() + fmt.RowSize()
  {}

  /** Reading a written directory gives back what it records, row by row and in order. */
  lemma {:induction false} DirectoryRoundTrip(fmt: Format, rows: seq<Row>)
    requires AllFit(fmt, rows)
    ensures ParseDir(fmt, DirBytes(fmt, rows)) == Recorded(rows)
    decreases |rows|
  {
    hide RowBytes, ParseRow, Fits;
    var dir := DirBytes(fmt, rows);
    if rows == [] {
      assert fmt.RowSize() > 0;
    } else {
      DirectoryRoundTrip(fmt, rows[1..]);
      RowRoundTrip(fmt, rows[0]);
      assert dir[..fmt.RowSize()] == RowBytes(fmt, rows[0]);
      assert dir[fmt.RowSize()..] == DirBytes(fmt, rows[1..]);
      assert Recorded(rows) == [rows[0].Recorded()] + Recorded(rows[1..]);
    }
  }

  // ----- The header -----

  function HeaderBytes(fmt: Format, dirOffset: u32, dirLength: u32): (s: seq<byte>)
    ensures |s| == HEADER_SIZE
  {
    fmt.Signature() + if fmt.Wad() then U32Bytes(dirLength / fmt.RowSize()) + U32Bytes(dirOffset)
                      else U32Bytes(dirOffset) + U32Bytes(dirLength)
  }

  // ----- Opening a file -----

  /** What the caller says about the format: nothing, a PAK-class format, or a ZIP label. */
  datatype Hint = Auto | As(format: Format) | AsZip

  datatype Magic = PakClass(format: Format) | Zip

  const ZIP_LOCAL: seq<byte> := [0x50, 0x4B, 3, 4]
  const ZIP_EMPTY: seq<byte> := [0x50, 0x4B, 5, 6]
  const ZIP_SPANNED: seq<byte> := [0x50, 0x4B, 7, 8]

  /** The signature and the hint settle the format, up to the choice between Quake and
      Daikatana, which share a signature. */
  function Classify(magic: seq<byte>, hint: Hint): (r: Result<Magic>)
    ensures r != Failure(Ok)
  {
    if magic == ZIP_LOCAL || magic == ZIP_EMPTY then
      if hint.As? then Failure(InvalidArgument) else Success(Zip)
    else if magic == ZIP_SPANNED then Failure(Unsupported)
    else if magic == Sin.Signature() then
      if hint != Auto && hint != As(Sin) then Failure(InvalidArgument) else Success(PakClass(Sin))
    else if magic == Pak.Signature() then
      if hint != Auto && hint != As(Pak) && hint != As(Daikatana) then Failure(InvalidArgument)
      else Success(PakClass(if hint == As(Daikatana) then Daikatana else Pak))
    else if magic == Iwad.Signature() then
      if hint != Auto && hint != As(Iwad) then Failure(InvalidArgument) else Success(PakClass(Iwad))
    else if magic == Pwad.Signature() then
      if hint != Auto && hint != As(Pwad) then Failure(InvalidArgument) else Success(PakClass(Pwad))
    else Failure(FormatError)
  }

  datatype Header = Header(format: Format, dirOffset: u32, dirLength: u32)

  /** The payload lies in the file and not in its header; an empty WAD lump may be anywhere. */
  predicate InRange(fmt: Format, r: Row, size: nat) {
    (r.offset >= HEADER_SIZE || (fmt.Wad() && r.length == 0)) && r.End() <= size
  }

  /** The directory reads as one of format fmt. */
  predicate Probe(file: seq<byte>, fmt: Format, dirOffset: u32, dirLength: u32)
    requires dirOffset + dirLength <= |file|
  {
    && dirLength % fmt.RowSize() == 0
    && dirLength / fmt.RowSize() <= MAX_ENTRIES
    && forall r <- ParseDir(fmt, file[dirOffset..dirOffset + dirLength]) :: InRange(fmt, r, |file|)
  }

  /** The header fields as the format orders them. */
  function ParseHeader(file: seq<byte>, fmt: Format): (r: Result<Header>)
    ensures r != Failure(Ok)
    ensures r.Success? ==>
      r.value.format == fmt && HEADER_SIZE <= r.value.dirOffset && r.value.dirOffset + r.value.dirLength <= |file|
  {
    if |file| < HEADER_SIZE then Failure(IoError)
    else
      var a, b := FieldAt(file, 4), FieldAt(file, 8);
      if fmt.Wad() && a > MAX_ENTRIES then Failure(LimitError)
      else
        var h := if fmt.Wad() then Header(fmt, b, a * 16) else Header(fmt, a, b);
        if h.dirOffset < HEADER_SIZE || h.dirLength > |file| || h.dirOffset > |file| - h.dirLength
        then Failure(FormatError) else Success(h)
  }

  /** Without a hint, Quake and Daikatana are told apart by which row layout the directory fits;
      an empty directory counts as Quake. */
  function ByLayout(dirLength: nat, pak: bool, dk: bool): Result<Format> {
    if dirLength == 0 then Success(Pak)
    else if pak && dk then Failure(FormatError)
    else if pak then Success(Pak)
    else if dk then Success(Daikatana)
    else Failure(FormatError)
  }

  function Disambiguate(file: seq<byte>, h: Header): Result<Format>
    requires h.dirOffset + h.dirLength <= |file|
  {
    ByLayout(h.dirLength, Probe(file, Pak, h.dirOffset, h.dirLength), Probe(file, Daikatana, h.dirOffset, h.dirLength))
  }

  /** The header with its format settled, once its directory is known to be whole rows and not too
      many of them. */
  function SettleFormat(file: seq<byte>, h: Header, hint: Hint): (r: Result<Header>)
    requires h.dirOffset + h.dirLength <= |file|
    ensures r.Success? ==> r.value == h.(format := r.value.format)
  {
    var fmt :- if (h.format.Pak? || h.format.Daikatana?) && hint.Auto? then Disambiguate(file, h)
      else Success(h.format);
    WithFormat(h, fmt)
  }

  function WithFormat(h: Header, fmt: Format): (r: Result<Header>)
    ensures r != Failure(Ok) && (r.Success? ==> r.value == h.(format := fmt))
  {
    if h.dirLength % fmt.RowSize() != 0 then Failure(FormatError)
    else if h.dirLength / fmt.RowSize() > MAX_ENTRIES then Failure(LimitError)
    else Success(h.(format := fmt))
  }

  /** The header, once it is known to describe a directory inside the file. A ZIP file is not
      opened here. */
  function LoadHeader(file: seq<byte>, hint: Hint): (r: Result<Header>)
    ensures r.Success? ==> HEADER_SIZE <= r.value.dirOffset && r.value.dirOffset + r.value.dirLength <= |file|
  {
    if |file| < 4 then Failure(IoError)
    else
      var magic :- Classify(file[..4], hint);
      if magic.Zip? then Failure(Unsupported)
      else
        var h :- ParseHeader(file, magic.format);
        SettleFormat(file, h, hint)
  }

  /** One past the last payload byte. */
  function PayloadEnd(rows: seq<Row>): (e: nat)
    ensures e >= HEADER_SIZE
    ensures forall r <- rows :: r.End() <= e
  {
    if rows == [] then HEADER_SIZE
    else Max(PayloadEnd(rows[..|rows| - 1]), rows[|rows| - 1].End())
  }

  predicate DistinctNames(rows: seq<Row>) {
    forall i, j :: 0 <= i < j < |rows| ==> rows[i].name != rows[j].name
  }

  datatype Opened = Opened(header: Header, rows: seq<Row>, payloadEnd: nat)

  /** All of opening a PAK-class file: header, directory, range checks, duplicate names. */
  function Load(file: seq<byte>, hint: Hint): Result<Opened> {
    var h :- LoadHeader(file, hint);
    var rows := ParseDir(h.format, file[h.dirOffset..h.dirOffset + h.dirLength]);
    if exists r <- rows :: !InRange(h.format, r, |file|) then Failure(FormatError)
    else if !h.format.Wad() && !DistinctNames(rows) then Failure(Duplicate)
    else Success(Opened(h, rows, PayloadEnd(rows)))
  }

  // ----- What a commit leaves in the file -----

  /** The rows may be written behind payloads that end at `end`. */
  ghost predicate Writable(fmt: Format, rows: seq<Row>, end: nat) {
    && AllFit(fmt, rows)
    && HEADER_SIZE <= end
    && (forall r <- rows :: InRange(fmt, r, end))
    && (fmt.Wad() || DistinctNames(rows))
  }

  /** A directory behind `end` stays within what 32-bit fields can say. */
  ghost predicate Addressable(fmt: Format, rows: seq<Row>, end: nat)
    requires AllFit(fmt, rows)
  {
    rows == [] || end + |DirBytes(fmt, rows)| <= U32_MAX
  }

  /** Where the directory goes: behind the payloads, or behind the header if it is empty. */
  function DirOffset(rows: seq<Row>, end: nat): nat {
    if rows == [] then HEADER_SIZE else end
  }

  /** The file left by writing the directory into `base` behind `end`, and then the header. */
  function Image(base: seq<byte>, fmt: Format, rows: seq<Row>, end: nat): seq<byte>
    requires AllFit(fmt, rows) && DirOffset(rows, end) <= U32_MAX && |DirBytes(fmt, rows)| <= U32_MAX
  {
    var dir := DirBytes(fmt, rows);
    Splice(Splice(base, end, dir), 0, HeaderBytes(fmt, DirOffset(rows, end), |dir|))
  }

  /** The image carries the header in front and the directory where the header says. */
  lemma ImageLayout(base: seq<byte>, fmt: Format, rows: seq<Row>, end: nat)
    requires Writable(fmt, rows, end) && Addressable(fmt, rows, end)
    ensures var f, dir, at := Image(base, fmt, rows, end), DirBytes(fmt, rows), DirOffset(rows, end);
            && at + |dir| <= |f| && HEADER_SIZE <= |f|
            && f[..HEADER_SIZE] == HeaderBytes(fmt, at, |dir|)
            && f[at..at + |dir|] == dir
            && |f| >= (if rows == [] then HEADER_SIZE else end + |dir|)
  {
    hide AllFit, DirBytes, HeaderBytes, Writable;
    WritableEnd(fmt, rows, end);
    EmptyDirectory(fmt, rows);
    var dir, at := DirBytes(fmt, rows), DirOffset(rows, end);
    var g := Splice(base, end, dir);
    var h := HeaderBytes(fmt, at, |dir|);
    SpliceHere(g, 0, h);
    if rows != [] {
      SpliceHere(base, end, dir);
      SpliceElsewhere(g, 0, h, end, end + |dir|);
    }
  }

  lemma EmptyDirectory(fmt: Format, rows: seq<Row>)
    requires AllFit(fmt, rows)
    ensures DirBytes(fmt, rows) == [] <==> rows == []
  {}

  lemma WritableEnd(fmt: Format, rows: seq<Row>, end: nat)
    requires Writable(fmt, rows, end)
    ensures HEADER_SIZE <= end && AllFit(fmt, rows)
  {}

  /** The image ends with the directory, unless the old file reached further. */
  lemma ImageSize(base: seq<byte>, fmt: Format, rows: seq<Row>, end: nat)
    requires Writable(fmt, rows, end) && Addressable(fmt, rows, end) && HEADER_SIZE <= |base|
    ensures |Image(base, fmt, rows, end)| == Max(|base|, DirOffset(rows, end) + |DirBytes(fmt, rows)|)
  {
    hide AllFit, DirBytes, HeaderBytes, Writable;
    WritableEnd(fmt, rows, end);
    EmptyDirectory(fmt, rows);
  }

  lemma ImageHeader(base: seq<byte>, fmt: Format, rows: seq<Row>, end: nat)
    requires Writable(fmt, rows, end) && Addressable(fmt, rows, end) && |rows| <= MAX_ENTRIES
    ensures var f := Image(base, fmt, rows, end);
            && |f| >= HEADER_SIZE && f[..4] == fmt.Signature()
            && ParseHeader(f, fmt) == Success(Header(fmt, DirOffset(rows, end), |DirBytes(fmt, rows)|))
  {
    hide AllFit, DirBytes, Writable, Image, ReadU32, U32Bytes;
    WritableEnd(fmt, rows, end);
    ImageLayout(base, fmt, rows, end);
    DirLength(fmt, rows);
    RowCount(fmt, |rows|);
    HeaderFieldsBack(Image(base, fmt, rows, end), fmt, DirOffset(rows, end), |DirBytes(fmt, rows)|);
  }

  lemma RowCount(fmt: Format, n: nat)
    ensures n * fmt.RowSize() / fmt.RowSize() == n && n * fmt.RowSize() % fmt.RowSize() == 0
  {
    match fmt
    case Pak => assert fmt.RowSize() == 64;
    case Sin => assert fmt.RowSize() == 128;
    case Daikatana => assert fmt.RowSize() == 72;
    case Iwad => assert fmt.RowSize() == 16;
    case Pwad => assert fmt.RowSize() == 16;
  }

  /** Opening what a commit wrote, under a hint naming its format, finds every row it recorded. */
  lemma ImageLoads(base: seq<byte>, fmt: Format, rows: seq<Row>, end: nat)
    requires Writable(fmt, rows, end) && Addressable(fmt, rows, end) && |rows| <= MAX_ENTRIES
    ensures Load(Image(base, fmt, rows, end), As(fmt))
         == Success(Opened(Header(fmt, DirOffset(rows, end), |DirBytes(fmt, rows)|), Recorded(rows),
                           PayloadEnd(Recorded(rows))))
  {
    hide AllFit, DirBytes, Writable, Image, ParseHeader, ParseDir, PayloadEnd, DistinctNames;
    WritableEnd(fmt, rows, end);
    ImageLayout(base, fmt, rows, end);
    ImageHeader(base, fmt, rows, end);
    DirLength(fmt, rows);
    RowCount(fmt, |rows|);
    DirectoryRoundTrip(fmt, rows);
    RecordedRows(fmt, rows, end, |Image(base, fmt, rows, end)|);
  }

  /** Recording a row loses nothing that opening checks. */
  lemma RecordedRows(fmt: Format, rows: seq<Row>, end: nat, size: nat)
    requires Writable(fmt, rows, end) && (rows == [] || end <= size)
    ensures forall r <- Recorded(rows) :: InRange(fmt, r, size)
    ensures fmt.Wad() || DistinctNames(Recorded(rows))
  {
    forall r | r in Recorded(rows) ensures InRange(fmt, r, size) {
      var i :| 0 <= i < |rows| && r == rows[i].Recorded();
      assert InRange(fmt, rows[i], end);
    }
  }

  function OtherLayout(fmt: Format): Format {
    if fmt.Pak? then Daikatana else Pak
  }

  lemma ImageProbes(base: seq<byte>, fmt: Format, rows: seq<Row>, end: nat)
    requires Writable(fmt, rows, end) && Addressable(fmt, rows, end) && |rows| <= MAX_ENTRIES
    ensures var f, n, at := Image(base, fmt, rows, end), |DirBytes(fmt, rows)|, DirOffset(rows, end);
            at + n <= |f| && Probe(f, fmt, at, n)
  {
    hide AllFit, DirBytes, Writable, Image, ParseDir, DistinctNames;
    WritableEnd(fmt, rows, end);
    ImageLayout(base, fmt, rows, end);
    DirLength(fmt, rows);
    RowCount(fmt, |rows|);
    DirectoryRoundTrip(fmt, rows);
    RecordedRows(fmt, rows, end, |Image(base, fmt, rows, end)|);
  }

  /** The other of the two layouts that share a signature fits the directory as well. */
  ghost predicate Ambiguous(file: seq<byte>, fmt: Format) {
    (fmt.Pak? || fmt.Daikatana?) && Load(file, As(fmt)).Success?
    && var h := Load(file, As(fmt)).value.header;
       h.dirLength > 0 && Probe(file, OtherLayout(fmt), h.dirOffset, h.dirLength)
  }

  /** A file that opens under its format opens the same without a hint, with two exceptions: it is refused if it
      is ambiguous, and if it is a Daikatana one without rows it opens as a Quake one. */
  lemma WithoutHint(file: seq<byte>, fmt: Format)
    requires Load(file, As(fmt)).Success?
    ensures var o := Load(file, As(fmt)).value;
            Load(file, Auto) ==
              if Ambiguous(file, fmt) then Failure(FormatError)
              else if fmt.Daikatana? && o.header.dirLength == 0 then
                Success(Opened(o.header.(format := Pak), [], HEADER_SIZE))
              else Success(o)
  {
    hide LoadHeader, ParseDir, PayloadEnd, DistinctNames, InRange;
    var h := LoadHeader(file, As(fmt)).value;
    OpensAsNamed(file, fmt);
    HeaderWithoutHint(file, fmt);
    EmptyTable(file[h.dirOffset..h.dirOffset + h.dirLength]);
  }

  lemma OpensAsNamed(file: seq<byte>, fmt: Format)
    requires Load(file, As(fmt)).Success?
    ensures var h := LoadHeader(file, As(fmt)).value;
            h.format == fmt && Probe(file, fmt, h.dirOffset, h.dirLength)
  {
    hide ParseHeader, ParseDir, PayloadEnd, DistinctNames, InRange, Classify;
    ClassifyAs(file[..4], fmt);
  }

  lemma HeaderWithoutHint(file: seq<byte>, fmt: Format)
    requires LoadHeader(file, As(fmt)).Success?
    requires var h := LoadHeader(file, As(fmt)).value; Probe(file, fmt, h.dirOffset, h.dirLength)
    ensures var h := LoadHeader(file, As(fmt)).value;
            LoadHeader(file, Auto) ==
              if !fmt.Pak? && !fmt.Daikatana? then Success(h)
              else if h.dirLength == 0 then Success(h.(format := Pak))
              else if Probe(file, OtherLayout(fmt), h.dirOffset, h.dirLength) then Failure(FormatError)
              else Success(h)
  {
    hide ParseHeader, Probe;
    SharedHeader(file);
  }

  lemma EmptyTable(s: seq<byte>)
    ensures s == [] ==> ParseDir(Pak, s) == [] && PayloadEnd([]) == HEADER_SIZE && DistinctNames([])
  {}

  /** Without a hint, a non-empty Quake or Daikatana file opens as what it is, or is refused as
      ambiguous; which of the two depends only on whether the other layout fits as well. */
  lemma AutoNeverMisidentifies(base: seq<byte>, fmt: Format, rows: seq<Row>, end: nat)
    requires fmt.Pak? || fmt.Daikatana?
    requires Writable(fmt, rows, end) && Addressable(fmt, rows, end) && |rows| <= MAX_ENTRIES
    requires rows != []
    ensures var f, n, at := Image(base, fmt, rows, end), |DirBytes(fmt, rows)|, DirOffset(rows, end);
            && at + n <= |f|
            && Load(f, Auto) == if Probe(f, OtherLayout(fmt), at, n) then Failure(FormatError) else Load(f, As(fmt))
  {
    hide AllFit, DirBytes, Writable, Image, ParseDir, ParseHeader, PayloadEnd, DistinctNames, Probe;
    WritableEnd(fmt, rows, end);
    ImageProbes(base, fmt, rows, end);
    ImageHeader(base, fmt, rows, end);
    EmptyDirectory(fmt, rows);
    DirLength(fmt, rows);
    RowCount(fmt, |rows|);
    SharedHeader(Image(base, fmt, rows, end));
  }

  /** The header means the same in both layouts. */
  lemma SharedHeader(f: seq<byte>)
    ensures var p, d := ParseHeader(f, Pak), ParseHeader(f, Daikatana);
            if p.Failure? then d == Failure(p.status)
            else d == Success(p.value.(format := Daikatana)) && p.value.format == Pak
  {}

  /** An empty Daikatana archive comes back as a Quake one. */
  lemma EmptyDaikatanaOpensAsQuake(base: seq<byte>, end: nat)
    requires HEADER_SIZE <= end <= U32_MAX
    ensures Load(Image(base, Daikatana, [], end), Auto) == Success(Opened(Header(Pak, HEADER_SIZE, 0), [], HEADER_SIZE))
  {
    hide Image, ParseHeader;
    ImageHeader(base, Daikatana, [], end);
    SharedHeader(Image(base, Daikatana, [], end));
  }

  /** The writer puts no bound on the number of rows, but opening does. */
  lemma TooManyRows(base: seq<byte>, fmt: Format, rows: seq<Row>, end: nat)
    requires Writable(fmt, rows, end) && Addressable(fmt, rows, end) && |rows| > MAX_ENTRIES
    ensures Load(Image(base, fmt, rows, end), As(fmt)) == Failure(LimitError)
  {
    hide AllFit, DirBytes, Writable, Image, ReadU32, U32Bytes, ParseDir;
    WritableEnd(fmt, rows, end);
    ImageLayout(base, fmt, rows, end);
    DirLength(fmt, rows);
    RowCount(fmt, |rows|);
    HeaderFieldsBack(Image(base, fmt, rows, end), fmt, DirOffset(rows, end), |DirBytes(fmt, rows)|);
  }

  lemma HeaderFieldsBack(f: seq<byte>, fmt: Format, at: u32, n: u32)
    requires |f| >= HEADER_SIZE && f[..HEADER_SIZE] == HeaderBytes(fmt, at, n)
    ensures f[..4] == fmt.Signature()
    ensures FieldAt(f, 4) == (if fmt.Wad() then n / fmt.RowSize() else at)
    ensures FieldAt(f, 8) == if fmt.Wad() then at else n
  {
    hide ReadU32, U32Bytes;
    var h := f[..HEADER_SIZE];
    assert f[..4] == h[..4] && f[4..8] == h[4..8] && f[8..12] == h[8..12];
    var a, b := if fmt.Wad() then n / fmt.RowSize() else at, if fmt.Wad() then at else n;
    U32RoundTrip(a);
    U32RoundTrip(b);
    assert f[4..8] == U32Bytes(a) && f[8..12] == U32Bytes(b);
  }

  /** Opening the file under a hint naming its format finds these rows, unless they are too many. */
  ghost predicate Reloads(file: seq<byte>, fmt: Format, rows: seq<Row>) {
    if |rows| > MAX_ENTRIES then Load(file, As(fmt)) == Failure(LimitError)
    else Load(file, As(fmt)).Success? && Load(file, As(fmt)).value.rows == Recorded(rows)
  }

  /** What a commit wrote can be opened exactly up to the limit on the number of rows. */
  lemma ImageReloads(base: seq<byte>, fmt: Format, rows: seq<Row>, end: nat)
    requires Writable(fmt, rows, end) && Addressable(fmt, rows, end)
    ensures Reloads(Image(base, fmt, rows, end), fmt, rows)
  {
    hide Image, Load, AllFit;
    if |rows| > MAX_ENTRIES {
      TooManyRows(base, fmt, rows, end);
    } else {
      ImageLoads(base, fmt, rows, end);
    }
  }

  /** A file that opens also opens under the name of the format it turned out to have. */
  lemma OpensAsItsFormat(file: seq<byte>, hint: Hint)
    requires Load(file, hint).Success?
    ensures Load(file, As(Load(file, hint).value.header.format)) == Load(file, hint)
    ensures |Load(file, hint).value.rows| <= MAX_ENTRIES
  {
    hide LoadHeader, InRange, ParseDir, DistinctNames, PayloadEnd, Format.RowSize;
    var h := LoadHeader(file, hint).value;
    SameHeader(file, hint);
    DirectoryBound(file, hint);
    RowsInDirectory(h.format, file[h.dirOffset..h.dirOffset + h.dirLength], MAX_ENTRIES);
  }

  lemma SameHeader(file: seq<byte>, hint: Hint)
    requires LoadHeader(file, hint).Success?
    ensures LoadHeader(file, As(LoadHeader(file, hint).value.format)) == LoadHeader(file, hint)
  {
    hide Probe, ParseHeader, Classify, WithFormat;
    ClassifyKinds(file[..4], hint);
    NamedHeader(file, hint, LoadHeader(file, hint).value.format);
  }

  lemma ClassifyKinds(magic: seq<byte>, hint: Hint)
    ensures var m := Classify(magic, hint);
            m.Success? && m.value.PakClass? && hint.Auto? ==> !m.value.format.Daikatana?
  {}

  lemma ClassifyAs(magic: seq<byte>, fmt: Format)
    ensures Classify(magic, As(fmt)).Success? && Classify(magic, As(fmt)).value.PakClass? ==>
      Classify(magic, As(fmt)).value.format == fmt
  {}

  lemma ClassifyNamed(magic: seq<byte>, hint: Hint, f: Format, fmt: Format)
    requires Classify(magic, hint) == Success(PakClass(f)) && (fmt == f || (f.Pak? && fmt.Daikatana?))
    ensures Classify(magic, As(fmt)) == Success(PakClass(fmt))
  {}

  /** Whatever format is settled on, the header reads the same under that format's name. */
  lemma NamedHeader(file: seq<byte>, hint: Hint, fmt: Format)
    requires |file| >= 4 && Classify(file[..4], hint).Success? && Classify(file[..4], hint).value.PakClass?
    requires var f := Classify(file[..4], hint).value.format;
             && ParseHeader(file, f).Success? && WithFormat(ParseHeader(file, f).value, fmt).Success?
             && (fmt == f || (f.Pak? && fmt.Daikatana?))
    ensures LoadHeader(file, As(fmt))
      == WithFormat(ParseHeader(file, Classify(file[..4], hint).value.format).value, fmt)
  {
    hide ParseHeader, Classify;
    var f := Classify(file[..4], hint).value.format;
    ClassifyNamed(file[..4], hint, f, fmt);
    SharedHeader(file);
    assert ParseHeader(file, fmt) == Success(ParseHeader(file, f).value.(format := fmt));
  }

  lemma DirectoryBound(file: seq<byte>, hint: Hint)
    requires LoadHeader(file, hint).Success?
    ensures var h := LoadHeader(file, hint).value; h.dirLength <= MAX_ENTRIES * h.format.RowSize()
  {
    hide Classify, ParseHeader, Disambiguate;
  }

  lemma {:induction false} RowsInDirectory(fmt: Format, s: seq<byte>, n: nat)
    requires |s| <= n * fmt.RowSize()
    ensures |ParseDir(fmt, s)| <= n
    decreases n
  {
    hide ParseRow;
    if |s| >= fmt.RowSize() {
      assert n > 0;
      OneMoreRow(fmt, n - 1);
      RowsInDirectory(fmt, s[fmt.RowSize()..], n - 1);
    }
  }
}
