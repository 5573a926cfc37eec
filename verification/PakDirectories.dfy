/** A directory and the header that points at it, and what writing behind the payloads does to them. */
module PakDirectories {
  import opened ByteStrings
  import opened Outcomes
  import opened PakFormat

  /** The header of the file says that the directory is there. */
  ghost predicate HeaderAt(file: seq<byte>, fmt: Format, at: nat, n: nat) {
    && HEADER_SIZE <= |file| && at <= U32_MAX && n <= U32_MAX && at + n <= |file|
    && file[..HEADER_SIZE] == HeaderBytes(fmt, at, n)
  }

  /** The file opens with these rows, and its directory is there. */
  ghost predicate Filed(file: seq<byte>, fmt: Format, rows: seq<Row>, at: nat, n: nat) {
    Reloads(file, fmt, rows) && HeaderAt(file, fmt, at, n)
  }

  /** There is no directory, or it ends before the place where payloads are added. */
  predicate Below(rows: seq<Row>, at: nat, n: nat, end: nat) {
    rows == [] || at + n <= end
  }

  /** A file that opens has its directory where opening finds it. */
  lemma LoadedIsFiled(file: seq<byte>, fmt: Format)
    requires Load(file, As(fmt)).Success? && Reloads(file, fmt, Load(file, As(fmt)).value.rows)
    ensures var o := Load(file, As(fmt)).value; Filed(file, fmt, o.rows, o.header.dirOffset, o.header.dirLength)
  {
    hide ParseDir, PayloadEnd, DistinctNames, InRange, Reloads, HeaderBytes;
    LoadedHeader(file, fmt);
  }

  lemma LoadedHeader(file: seq<byte>, fmt: Format)
    requires LoadHeader(file, As(fmt)).Success?
    ensures var h := LoadHeader(file, As(fmt)).value;
            && HeaderAt(file, fmt, h.dirOffset, h.dirLength) && h.format == fmt && h.dirLength % fmt.RowSize() == 0
            && h == Header(fmt, if fmt.Wad() then FieldAt(file, 8) else FieldAt(file, 4),
                           if fmt.Wad() then FieldAt(file, 4) * 16 else FieldAt(file, 8))
  {
    hide ReadU32, U32Bytes;
    FieldBack(file, 4);
    FieldBack(file, 8);
    assert file[..HEADER_SIZE] == file[..4] + (file[4..8] + file[8..12]);
  }

  lemma FieldBack(file: seq<byte>, p: nat)
    requires p + 4 <= |file|
    ensures U32Bytes(FieldAt(file, p)) == file[p..p + 4]
  {
    FromLittleEndianBack(file[p..p + 4]);
  }

  /** What a commit wrote has its directory where the caches say. */
  lemma ImageIsFiled(base: seq<byte>, fmt: Format, rows: seq<Row>, end: nat)
    requires Writable(fmt, rows, end) && Addressable(fmt, rows, end)
    ensures AllFit(fmt, rows) && DirOffset(rows, end) <= U32_MAX && |DirBytes(fmt, rows)| <= U32_MAX
    ensures Filed(Image(base, fmt, rows, end), fmt, rows, DirOffset(rows, end), |DirBytes(fmt, rows)|)
  {
    hide AllFit, DirBytes, Writable, Image, Reloads, HeaderBytes;
    WritableEnd(fmt, rows, end);
    EmptyDirectory(fmt, rows);
    ImageLayout(base, fmt, rows, end);
    ImageReloads(base, fmt, rows, end);
  }

  lemma SameField(a: seq<byte>, b: seq<byte>, p: nat)
    requires p + 4 <= HEADER_SIZE <= |a| && HEADER_SIZE <= |b| && a[..HEADER_SIZE] == b[..HEADER_SIZE]
    ensures FieldAt(a, p) == FieldAt(b, p)
  {
    assert a[p..p + 4] == a[..HEADER_SIZE][p..p + 4];
    assert b[p..p + 4] == b[..HEADER_SIZE][p..p + 4];
  }

  /** A file that begins as a shorter one has its header accepted like that one's. */
  lemma SameHeaderLoads(file: seq<byte>, more: seq<byte>, fmt: Format)
    requires HEADER_SIZE <= |file| <= |more| && more[..HEADER_SIZE] == file[..HEADER_SIZE]
    requires LoadHeader(file, As(fmt)).Success? || LoadHeader(file, As(fmt)) == Failure(LimitError)
    ensures LoadHeader(more, As(fmt)) == LoadHeader(file, As(fmt))
  {
    hide FieldAt, Probe;
    assert more[..4] == more[..HEADER_SIZE][..4] && file[..4] == file[..HEADER_SIZE][..4];
    SameField(file, more, 4);
    SameField(file, more, 8);
  }

  /** Whatever is written behind a directory leaves the file opening as before. */
  lemma FiledStays(file: seq<byte>, fmt: Format, rows: seq<Row>, at: nat, n: nat, end: nat, d: seq<byte>)
    requires Filed(file, fmt, rows, at, n) && HEADER_SIZE <= end <= |file| && Below(rows, at, n, end)
    ensures Filed(Splice(file, end, d), fmt, rows, at, n)
  {
    hide Load, Splice, HeaderBytes, HeaderAt;
    var more := Splice(file, end, d);
    HeaderStays(file, fmt, at, n, end, d);
    if |rows| > MAX_ENTRIES {
      RefusedHeader(file, fmt);
      SameHeaderLoads(file, more, fmt);
      RefusedHeader(more, fmt);
    } else {
      DirectoryStays(file, fmt, rows, at, n, end, d);
      SameDirectoryLoads(file, more, fmt);
    }
  }

  lemma HeaderStays(file: seq<byte>, fmt: Format, at: nat, n: nat, end: nat, d: seq<byte>)
    requires HeaderAt(file, fmt, at, n) && HEADER_SIZE <= end <= |file|
    ensures HeaderAt(Splice(file, end, d), fmt, at, n)
    ensures var more := Splice(file, end, d);
            HEADER_SIZE <= |file| <= |more| && more[..HEADER_SIZE] == file[..HEADER_SIZE]
  {
    hide HeaderBytes, Splice;
    var more := Splice(file, end, d);
    SpliceElsewhere(file, end, d, 0, HEADER_SIZE);
    assert more[..HEADER_SIZE] == more[0..HEADER_SIZE] && file[0..HEADER_SIZE] == file[..HEADER_SIZE];
  }

  /** Too many rows are refused by the header alone. */
  lemma RefusedHeader(file: seq<byte>, fmt: Format)
    ensures Load(file, As(fmt)) == Failure(LimitError) <==> LoadHeader(file, As(fmt)) == Failure(LimitError)
  {
    hide LoadHeader, ParseDir, InRange, DistinctNames, PayloadEnd;
  }

  lemma DirectoryStays(file: seq<byte>, fmt: Format, rows: seq<Row>, at: nat, n: nat, end: nat, d: seq<byte>)
    requires HeaderAt(file, fmt, at, n) && Load(file, As(fmt)).Success?
    requires Load(file, As(fmt)).value.rows == Recorded(rows)
    requires HEADER_SIZE <= end <= |file| && Below(rows, at, n, end)
    ensures LoadHeader(file, As(fmt)).Success?
    ensures var h, more := LoadHeader(file, As(fmt)).value, Splice(file, end, d);
            && h.dirOffset + h.dirLength <= |file| <= |more|
            && more[h.dirOffset..h.dirOffset + h.dirLength] == file[h.dirOffset..h.dirOffset + h.dirLength]
  {
    hide LoadHeader, ParseDir, PayloadEnd, DistinctNames, Splice, HeaderBytes, InRange;
    var more := Splice(file, end, d);
    var h := LoadHeader(file, As(fmt)).value;
    HeaderStays(file, fmt, at, n, end, d);
    LoadedDirectory(file, fmt, at, n);
    if h.dirLength > 0 {
      RowsOfLength(fmt, file[h.dirOffset..h.dirOffset + h.dirLength]);
      SpliceElsewhere(file, end, d, h.dirOffset, h.dirOffset + h.dirLength);
    } else {
      assert more[h.dirOffset..h.dirOffset + h.dirLength] == file[h.dirOffset..h.dirOffset + h.dirLength];
    }
  }

  /** A longer file with the same header and the same directory opens with the same rows. */
  lemma SameDirectoryLoads(file: seq<byte>, more: seq<byte>, fmt: Format)
    requires Load(file, As(fmt)).Success? && HEADER_SIZE <= |file| <= |more|
    requires more[..HEADER_SIZE] == file[..HEADER_SIZE]
    requires var h := LoadHeader(file, As(fmt)).value;
             more[h.dirOffset..h.dirOffset + h.dirLength] == file[h.dirOffset..h.dirOffset + h.dirLength]
    ensures Load(more, As(fmt)) == Load(file, As(fmt))
  {
    hide LoadHeader, ParseDir, PayloadEnd, DistinctNames, InRange;
    SameHeaderLoads(file, more, fmt);
    var h := LoadHeader(file, As(fmt)).value;
    RangesGrow(h.format, ParseDir(h.format, file[h.dirOffset..h.dirOffset + h.dirLength]), |file|, |more|);
  }

  lemma RangesGrow(fmt: Format, rows: seq<Row>, size: nat, more: nat)
    requires size <= more && forall r <- rows :: InRange(fmt, r, size)
    ensures forall r <- rows :: InRange(fmt, r, more)
  {}

  /** The directory that opening reads ends where the header says, and is made of whole rows. */
  lemma LoadedDirectory(file: seq<byte>, fmt: Format, at: nat, n: nat)
    requires HeaderAt(file, fmt, at, n) && LoadHeader(file, As(fmt)).Success?
    ensures var h := LoadHeader(file, As(fmt)).value;
            && h.format == fmt && h.dirLength % fmt.RowSize() == 0
            && h.dirOffset + h.dirLength <= at + n && h.dirOffset + h.dirLength <= |file|
  {
    hide LoadHeader, FieldAt, HeaderBytes, HeaderAt;
    LoadedHeader(file, fmt);
    HeaderFields(file, fmt, at, n);
  }

  lemma HeaderFields(file: seq<byte>, fmt: Format, at: nat, n: nat)
    requires HeaderAt(file, fmt, at, n)
    ensures at <= U32_MAX && n <= U32_MAX
    ensures FieldAt(file, 4) == (if fmt.Wad() then n / 16 else at) && FieldAt(file, 8) == if fmt.Wad() then at else n
  {
    hide FieldAt, HeaderBytes;
    HeaderFieldsBack(file, fmt, at, n);
  }

  lemma RowsOfLength(fmt: Format, dir: seq<byte>)
    ensures |dir| >= fmt.RowSize() <==> ParseDir(fmt, dir) != []
  {}
}
