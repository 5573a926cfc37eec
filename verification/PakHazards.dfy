/** Where a file can lose its meaning: adds in plain mode write behind the payloads, which is where the
    directory is. */
module PakHazards {
  import opened ByteStrings
  import opened Outcomes
  import opened PakFormat
  import opened PakDirectories

  /** An archive with one empty entry. */
  const ROWS: seq<Row> := [Row([0x61], HEADER_SIZE, 0, 0, false, 0, None, None)]

  lemma OneRow()
    ensures Writable(Pak, ROWS, HEADER_SIZE) && Addressable(Pak, ROWS, HEADER_SIZE) && |DirBytes(Pak, ROWS)| == 64
  {
    DirLength(Pak, ROWS);
  }

  /** A clean archive's file opens, and after an add that failed behind its first 64 bytes it does not;
      the archive in memory is not marked as changed, so closing it repairs nothing. */
  lemma FailedAddCanLoseDirectory()
    ensures Writable(Pak, ROWS, HEADER_SIZE) && Addressable(Pak, ROWS, HEADER_SIZE)
    ensures var file := Image([], Pak, ROWS, HEADER_SIZE);
            && Reloads(file, Pak, ROWS)
            && Load(Splice(file, HEADER_SIZE, Repeat(0xFF, 64)), As(Pak)) == Failure(FormatError)
  {
    hide Image, Writable, DirBytes, Reloads;
    OneRow();
    ImageReloads([], Pak, ROWS, HEADER_SIZE);
    ImageLayout([], Pak, ROWS, HEADER_SIZE);
    ImageHeader([], Pak, ROWS, HEADER_SIZE);
    WritableEnd(Pak, ROWS, HEADER_SIZE);
    ImageLength();
    var file, junk := Image([], Pak, ROWS, HEADER_SIZE), Repeat(0xFF, 64);
    TornLoads(file, junk);
  }

  lemma ImageLength()
    ensures Writable(Pak, ROWS, HEADER_SIZE) && Addressable(Pak, ROWS, HEADER_SIZE)
    ensures |Image([], Pak, ROWS, HEADER_SIZE)| == 76
  {
    hide DirBytes, Writable, HeaderBytes;
    OneRow();
    WritableEnd(Pak, ROWS, HEADER_SIZE);
  }

  lemma TornLoads(file: seq<byte>, junk: seq<byte>)
    requires |file| == 76 && junk == Repeat(0xFF, 64) && file[..4] == Pak.Signature()
    requires ParseHeader(file, Pak) == Success(Header(Pak, HEADER_SIZE, 64))
    ensures Load(Splice(file, HEADER_SIZE, junk), As(Pak)) == Failure(FormatError)
  {
    hide CString;
    var torn := Splice(file, HEADER_SIZE, junk);
    assert torn == file[..12] + junk;
    assert torn[..4] == file[..4] && torn[4..8] == file[4..8] && torn[8..12] == file[8..12];
    assert torn[12..76] == junk;
    var row := ParseRow(Pak, junk);
    assert junk[56..60] == [0xFF, 0xFF, 0xFF, 0xFF];
    assert !InRange(Pak, row, 76);
    assert ParseDir(Pak, junk)[0] == row by { assert junk[..64] == junk; }
    assert row in ParseDir(Pak, junk);
  }

  // ----- Exactly when it can happen -----

  /** The file opens and gives the rows it gave before, from the same directory. */
  predicate SameRows(before: seq<byte>, after: seq<byte>, fmt: Format) {
    var was, now := Load(before, As(fmt)), Load(after, As(fmt));
    was.Success? && now.Success? && now.value.rows == was.value.rows && now.value.header == was.value.header
  }

  /** From `end` on, the directory has only bytes that say nothing: the rest of a WAD name behind its
      zero, or the rest of a Daikatana flag that is not zero before. */
  predicate Padding(file: seq<byte>, fmt: Format, stop: nat, end: nat)
    requires stop <= |file|
  {
    match fmt
    case Daikatana => stop - 4 <= end < stop && exists i :: 0 <= stop - 4 <= i < end && file[i] != 0
    case Iwad => stop - 8 <= end < stop && exists i :: 0 <= stop - 8 <= i < end && file[i] == 0
    case Pwad => stop - 8 <= end < stop && exists i :: 0 <= stop - 8 <= i < end && file[i] == 0
    case _ => false
  }

  /** Nothing that counts in the directory lies from `end` on. */
  predicate OutOfReach(file: seq<byte>, fmt: Format, end: nat)
    requires Load(file, As(fmt)).Success?
  {
    var o := Load(file, As(fmt)).value;
    var stop: nat := o.header.dirOffset + o.header.dirLength;
    Below(o.rows, o.header.dirOffset, o.header.dirLength, end) || (stop <= |file| && Padding(file, fmt, stop, end))
  }

  /** Whatever a failed add leaves behind the payloads, the file still opens with its old rows: this holds
      exactly if nothing that counts in the directory lies there. */
  lemma FailedAddIsHarmlessExactly(file: seq<byte>, fmt: Format, end: nat)
    requires Load(file, As(fmt)).Success? && HEADER_SIZE <= end <= |file|
    ensures (forall d: seq<byte> :: SameRows(file, Splice(file, end, d), fmt)) <==> OutOfReach(file, fmt, end)
  {
    hide Load, Padding;
    var o := Load(file, As(fmt)).value;
    Opened(file, fmt);
    var stop: nat := o.header.dirOffset + o.header.dirLength;
    if Below(o.rows, o.header.dirOffset, o.header.dirLength, end) {
      forall d: seq<byte> ensures SameRows(file, Splice(file, end, d), fmt) { BelowStays(file, fmt, end, d); }
    } else if Padding(file, fmt, stop, end) {
      forall d: seq<byte> ensures SameRows(file, Splice(file, end, d), fmt) { PaddingStays(file, fmt, end, d); }
    } else {
      DirectoryLost(file, fmt, end);
    }
  }

  /** In a Quake or SiN file every byte of a row counts that ends the directory, so there the condition
      is that the directory ends before the place where adds write. */
  lemma EveryLastByteCounts(file: seq<byte>, fmt: Format, end: nat)
    requires Load(file, As(fmt)).Success? && HEADER_SIZE <= end <= |file| && (fmt.Pak? || fmt.Sin?)
    ensures var o := Load(file, As(fmt)).value;
            (forall d: seq<byte> :: SameRows(file, Splice(file, end, d), fmt))
            <==> Below(o.rows, o.header.dirOffset, o.header.dirLength, end)
  {
    hide Load, Below;
    FailedAddIsHarmlessExactly(file, fmt, end);
  }

  /** Every file a commit writes with entries in it has its directory right behind the payloads, so a
      failed add can lose it. */
  lemma WrittenFilesAreAtRisk(base: seq<byte>, fmt: Format, rows: seq<Row>, end: nat)
    requires Writable(fmt, rows, end) && Addressable(fmt, rows, end) && 0 < |rows| <= MAX_ENTRIES
    ensures var file := Image(base, fmt, rows, end); exists d: seq<byte> :: !SameRows(file, Splice(file, end, d), fmt)
  {
    hide Load, Image, DirBytes, SameRows, Writable, PayloadEnd;
    WritableEnd(fmt, rows, end);
    DirLength(fmt, rows);
    ImageLoads(base, fmt, rows, end);
    ImageLayout(base, fmt, rows, end);
    FailedAddIsHarmlessExactly(Image(base, fmt, rows, end), fmt, end);
  }

  // ----- What opening read -----

  /** The rows of an opened file are those of its directory, which is made of whole rows. */
  lemma Opened(file: seq<byte>, fmt: Format)
    requires Load(file, As(fmt)).Success?
    ensures var o := Load(file, As(fmt)).value;
            var at: nat, n: nat := o.header.dirOffset, o.header.dirLength;
            && HEADER_SIZE <= at && at + n <= |file| && n % fmt.RowSize() == 0
                 && o.rows == ParseDir(fmt, file[at..at + n])
            && LoadHeader(file, As(fmt)) == Success(o.header) && o.header.format == fmt
            && (o.rows == [] <==> n == 0) && (n > 0 ==> n >= fmt.RowSize())
  {
    hide LoadHeader, ParseDir, PayloadEnd, DistinctNames, InRange, HeaderAt, FieldAt, Format.RowSize;
    LoadedHeader(file, fmt);
    var h := LoadHeader(file, As(fmt)).value;
    RowsOfLength(fmt, file[h.dirOffset..h.dirOffset + h.dirLength]);
    AtLeastOneRow(fmt, h.dirLength);
  }

  lemma AtLeastOneRow(fmt: Format, n: nat)
    requires n % fmt.RowSize() == 0
    ensures 0 < fmt.RowSize() && (n > 0 <==> n >= fmt.RowSize())
  {}

  lemma BelowStays(file: seq<byte>, fmt: Format, end: nat, d: seq<byte>)
    requires Load(file, As(fmt)).Success? && HEADER_SIZE <= end <= |file|
    requires var o := Load(file, As(fmt)).value; Below(o.rows, o.header.dirOffset, o.header.dirLength, end)
    ensures SameRows(file, Splice(file, end, d), fmt)
  {
    hide Load, Splice, HeaderBytes, ParseDir;
    Opened(file, fmt);
    var o, more := Load(file, As(fmt)).value, Splice(file, end, d);
    var at: nat, n: nat := o.header.dirOffset, o.header.dirLength;
    LoadedHeader(file, fmt);
    HeaderStays(file, fmt, at, n, end, d);
    if n > 0 {
      SpliceElsewhere(file, end, d, at, at + n);
    } else {
      assert more[at..at + n] == file[at..at + n] == [];
    }
    SameDirectoryLoads(file, more, fmt);
  }

  // ----- Padding -----

  /** A directory is its rows but the last, and the last. */
  lemma {:induction false} LastRow(fmt: Format, dir: seq<byte>)
    requires |dir| >= fmt.RowSize() && |dir| % fmt.RowSize() == 0
    ensures var k := |dir| - fmt.RowSize(); ParseDir(fmt, dir) == ParseDir(fmt, dir[..k]) + [ParseRow(fmt, dir[k..])]
    decreases |dir|
  {
    hide ParseRow;
    var size := fmt.RowSize();
    var k := |dir| - size;
    if k > 0 {
      var rest := dir[size..];
      WholeRows(fmt, |dir|);
      LastRow(fmt, rest);
      assert rest[..k - size] == dir[..k][size..] && rest[k - size..] == dir[k..] && dir[..size] == dir[..k][..size];
    } else {
      assert dir[..0] == [] && dir[..size] == dir && dir[size..] == [];
    }
  }

  lemma WholeRows(fmt: Format, n: nat)
    requires n % fmt.RowSize() == 0 && n > fmt.RowSize()
    ensures n - fmt.RowSize() >= fmt.RowSize() && (n - fmt.RowSize()) % fmt.RowSize() == 0
  {
    match fmt
    case Pak => Whole64(n);
    case Sin => Whole128(n);
    case Daikatana => Whole72(n);
    case Iwad => Whole16(n);
    case Pwad => Whole16(n);
  }

  lemma Whole16(n: nat)
    requires n % 16 == 0 && n > 16
    ensures n - 16 >= 16 && (n - 16) % 16 == 0
  {}

  lemma Whole64(n: nat)
    requires n % 64 == 0 && n > 64
    ensures n - 64 >= 64 && (n - 64) % 64 == 0
  {}

  lemma Whole72(n: nat)
    requires n % 72 == 0 && n > 72
    ensures n - 72 >= 72 && (n - 72) % 72 == 0
  {}

  lemma Whole128(n: nat)
    requires n % 128 == 0 && n > 128
    ensures n - 128 >= 128 && (n - 128) % 128 == 0
  {}

  /** A C string is settled by its bytes up to the zero. */
  lemma {:induction false} SameCString(s: seq<byte>, t: seq<byte>, k: nat)
    requires k <= |s| && k <= |t| && s[..k] == t[..k] && 0 in s[..k]
    ensures CString(s) == CString(t)
    decreases k
  {
    assert s[..k][0] == t[..k][0];
    if s[0] != 0 {
      assert s[1..][..k - 1] == s[..k][1..] && t[1..][..k - 1] == t[..k][1..];
      assert s[..k] == [s[0]] + s[..k][1..];
      SameCString(s[1..], t[1..], k - 1);
    }
  }

  /** A number is zero exactly if all its bytes are. */
  lemma {:induction false} ZeroBytes(s: seq<byte>)
    ensures FromLittleEndian(s) == 0 <==> forall b <- s :: b == 0
  {
    if s != [] {
      ZeroBytes(s[1..]);
      assert forall b <- s :: b == s[0] || b in s[1..];
      assert s[0] in s && forall b <- s[1..] :: b in s;
    }
  }

  /** Changing the bytes from k on that do not count gives the same row. */
  lemma SamePaddedRow(fmt: Format, a: seq<byte>, b: seq<byte>, k: nat)
    requires |a| == |b| == fmt.RowSize() && k < |a| && a[..k] == b[..k] && Padding(a, fmt, |a|, k)
    ensures ParseRow(fmt, a) == ParseRow(fmt, b)
  {
    hide CString, ReadU32;
    if fmt.Wad() {
      var i :| 8 <= i < k && a[i] == 0;
      assert a[8..][..k - 8] == a[..k][8..] && b[8..][..k - 8] == b[..k][8..] && a[8..][..k - 8][i - 8] == 0;
      SameCString(a[8..], b[8..], k - 8);
      SameFieldAt(a, b, 0, k);
      SameFieldAt(a, b, 4, k);
    } else {
      var i :| 68 <= i < k && a[i] != 0;
      assert b[i] == b[..k][i] == a[..k][i];
      assert a[..56] == a[..k][..56] && b[..56] == b[..k][..56];
      SameFieldAt(a, b, 56, k);
      SameFieldAt(a, b, 60, k);
      SameFieldAt(a, b, 64, k);
      FlagSet(a, i);
      FlagSet(b, i);
    }
  }

  lemma SameFieldAt(a: seq<byte>, b: seq<byte>, p: nat, k: nat)
    requires p + 4 <= k <= |a| == |b| && a[..k] == b[..k]
    ensures FieldAt(a, p) == FieldAt(b, p)
  {
    assert a[p..p + 4] == a[..k][p..p + 4] && b[p..p + 4] == b[..k][p..p + 4];
  }

  lemma FlagSet(a: seq<byte>, i: nat)
    requires |a| == 72 && 68 <= i < 72 && a[i] != 0
    ensures FieldAt(a, 68) != 0
  {
    assert a[68..72][i - 68] == a[i] && a[i] in a[68..72];
    ZeroBytes(a[68..72]);
  }

  lemma PaddingStays(file: seq<byte>, fmt: Format, end: nat, d: seq<byte>)
    requires Load(file, As(fmt)).Success? && HEADER_SIZE <= end <= |file|
    requires var o := Load(file, As(fmt)).value;
             var stop: nat := o.header.dirOffset + o.header.dirLength;
             stop <= |file| && o.rows != [] && Padding(file, fmt, stop, end)
    ensures SameRows(file, Splice(file, end, d), fmt)
  {
    hide Load, Splice, HeaderBytes, ParseDir, ParseRow;
    Opened(file, fmt);
    var o, more := Load(file, As(fmt)).value, Splice(file, end, d);
    var at: nat, n: nat := o.header.dirOffset, o.header.dirLength;
    LoadedHeader(file, fmt);
    HeaderStays(file, fmt, at, n, end, d);
    SpliceElsewhere(file, end, d, 0, end);
    var a, b := file[at..at + n], more[at..at + n];
    SamePaddedDirectory(file, more, fmt, at, n, end);
    SameRowsLoad(file, more, fmt);
  }

  /** The directories before and after give the same rows. */
  lemma SamePaddedDirectory(file: seq<byte>, more: seq<byte>, fmt: Format, at: nat, n: nat, end: nat)
    requires at + n <= |file| <= |more| && end <= |file| && more[0..end] == file[0..end]
    requires n >= fmt.RowSize() && n % fmt.RowSize() == 0 && Padding(file, fmt, at + n, end)
    ensures ParseDir(fmt, more[at..at + n]) == ParseDir(fmt, file[at..at + n])
  {
    hide ParseDir, ParseRow;
    var k := n - fmt.RowSize();
    var a, b := file[at..at + n], more[at..at + n];
    PaddingInRow(file, fmt, at, n, end);
    LastRow(fmt, a);
    LastRow(fmt, b);
    var m := end - at - k;
    SameSlice(file, more, end, at, at + k);
    SameSlice(file, more, end, at + k, end);
    assert a[..k] == file[at..at + k] && b[..k] == more[at..at + k];
    assert a[k..][..m] == file[at + k..end] && b[k..][..m] == more[at + k..end];
    SamePaddedRow(fmt, a[k..], b[k..], m);
  }

  lemma SameSlice(file: seq<byte>, more: seq<byte>, end: nat, x: nat, y: nat)
    requires x <= y <= end <= |file| && end <= |more| && more[0..end] == file[0..end]
    ensures more[x..y] == file[x..y]
  {
    assert more[x..y] == more[0..end][x..y] && file[x..y] == file[0..end][x..y];
  }

  lemma PaddingInRow(file: seq<byte>, fmt: Format, at: nat, n: nat, end: nat)
    requires at + n <= |file| && n >= fmt.RowSize() && Padding(file, fmt, at + n, end)
    ensures var k := n - fmt.RowSize();
            at + k <= end && Padding(file[at..at + n][k..], fmt, fmt.RowSize(), end - at - k)
  {
    var k := n - fmt.RowSize();
    var row := file[at..at + n][k..];
    if fmt.Wad() {
      var i :| at + n - 8 <= i < end && file[i] == 0;
      assert row[i - at - k] == 0;
    } else {
      var i :| at + n - 4 <= i < end && file[i] != 0;
      assert row[i - at - k] != 0;
    }
  }

  /** A longer file with the same header whose directory gives the same rows opens with the same rows. */
  lemma SameRowsLoad(file: seq<byte>, more: seq<byte>, fmt: Format)
    requires Load(file, As(fmt)).Success? && HEADER_SIZE <= |file| <= |more|
    requires more[..HEADER_SIZE] == file[..HEADER_SIZE]
    requires var h := LoadHeader(file, As(fmt)).value;
             ParseDir(h.format, more[h.dirOffset..h.dirOffset + h.dirLength])
             == ParseDir(h.format, file[h.dirOffset..h.dirOffset + h.dirLength])
    ensures SameRows(file, more, fmt)
  {
    hide LoadHeader, ParseDir, PayloadEnd, DistinctNames, InRange;
    SameHeaderLoads(file, more, fmt);
    var h := LoadHeader(file, As(fmt)).value;
    RangesGrow(h.format, ParseDir(h.format, file[h.dirOffset..h.dirOffset + h.dirLength]), |file|, |more|);
  }

  // ----- Losing the directory -----

  /** The last row of the directory, as it is in the file. */
  function LastBytes(file: seq<byte>, fmt: Format, stop: nat): (s: seq<byte>)
    requires fmt.RowSize() <= stop <= |file|
    ensures |s| == fmt.RowSize()
  {
    file[stop - fmt.RowSize()..stop]
  }

  /** The last row of an opened file. */
  lemma EndsInLastRow(file: seq<byte>, fmt: Format)
    requires Load(file, As(fmt)).Success? && Load(file, As(fmt)).value.rows != []
    ensures var o := Load(file, As(fmt)).value;
            var stop: nat := o.header.dirOffset + o.header.dirLength;
            && fmt.RowSize() <= stop <= |file|
            && o.rows[|o.rows| - 1] == ParseRow(fmt, LastBytes(file, fmt, stop))
  {
    hide Load, ParseDir, ParseRow, Format.RowSize;
    Opened(file, fmt);
    var h := Load(file, As(fmt)).value.header;
    var at: nat, n: nat := h.dirOffset, h.dirLength;
    LastRow(fmt, file[at..at + n]);
    var k := n - fmt.RowSize();
    assert file[at..at + n][k..] == LastBytes(file, fmt, at + n);
  }

  /** A file that still opens with the same rows still has the same last row. */
  lemma LastRowKept(file: seq<byte>, other: seq<byte>, fmt: Format)
    requires Load(file, As(fmt)).Success? && Load(file, As(fmt)).value.rows != [] && |other| == |file|
    requires SameRows(file, other, fmt)
    ensures var h := Load(file, As(fmt)).value.header;
            var stop: nat := h.dirOffset + h.dirLength;
            && fmt.RowSize() <= stop <= |file|
            && ParseRow(fmt, LastBytes(other, fmt, stop)) == ParseRow(fmt, LastBytes(file, fmt, stop))
  {
    hide Load, ParseRow, LastBytes;
    EndsInLastRow(file, fmt);
    EndsInLastRow(other, fmt);
  }

  lemma DirectoryLost(file: seq<byte>, fmt: Format, end: nat)
    requires Load(file, As(fmt)).Success? && HEADER_SIZE <= end <= |file| && !OutOfReach(file, fmt, end)
    ensures exists d: seq<byte> :: !SameRows(file, Splice(file, end, d), fmt)
  {
    hide Load, Padding, SameRows, Splice;
    Opened(file, fmt);
    var h := Load(file, As(fmt)).value.header;
    var stop: nat := h.dirOffset + h.dirLength;
    var last := LastNumber(fmt);
    if end + last < stop {
      NumberLost(file, fmt, stop, end);
    } else if fmt.Daikatana? {
      FlagLost(file, fmt, stop, end);
    } else {
      NameLost(file, fmt, stop, end);
    }
  }

  /** How far the last byte of the last number of a row, a flag aside, is from the row's end. */
  function LastNumber(fmt: Format): nat {
    if fmt.Wad() then 8 else if fmt.Daikatana? then 4 else 0
  }

  /** Overwriting one byte, with what was there before it. */
  lemma OneByte(file: seq<byte>, end: nat, q: nat, b: byte)
    requires HEADER_SIZE <= end <= q < |file|
    ensures Splice(file, end, file[end..q] + [b]) == file[q := b] && file[q := b][..HEADER_SIZE] == file[..HEADER_SIZE]
  {
    var d := file[end..q] + [b];
    var r := Splice(file, end, d);
    assert |r| == |file|;
    forall i | 0 <= i < |file| ensures r[i] == file[q := b][i] {
      if end <= i < end + |d| { assert r[i] == d[i - end]; }
    }
  }

  /** The last byte of a number changed makes it another number. */
  lemma NumberLost(file: seq<byte>, fmt: Format, stop: nat, end: nat)
    requires Load(file, As(fmt)).Success? && Load(file, As(fmt)).value.rows != [] && HEADER_SIZE <= end
    requires stop <= |file|
    requires var h := Load(file, As(fmt)).value.header; stop == h.dirOffset + h.dirLength && fmt.RowSize() <= stop
    requires end + LastNumber(fmt) < stop && LastNumber(fmt) < fmt.RowSize()
    ensures exists d: seq<byte> :: !SameRows(file, Splice(file, end, d), fmt)
  {
    hide Load, SameRows, Splice, ParseRow, Format.RowSize;
    var q := stop - 1 - LastNumber(fmt);
    var b: byte := (file[q] as int + 1) % 0x100;
    var other := file[q := b];
    OneByte(file, end, q, b);
    if SameRows(file, other, fmt) {
      LastRowKept(file, other, fmt);
      OtherNumber(fmt, LastBytes(file, fmt, stop), LastBytes(other, fmt, stop));
      assert false;
    }
    assert !SameRows(file, Splice(file, end, file[end..q] + [b]), fmt);
  }

  lemma OtherNumber(fmt: Format, a: seq<byte>, b: seq<byte>)
    requires |a| == |b| == fmt.RowSize() && a[|a| - 1 - LastNumber(fmt)] != b[|a| - 1 - LastNumber(fmt)]
    ensures ParseRow(fmt, a) != ParseRow(fmt, b)
  {
    hide CString, ReadU32;
    var p := |a| - 4 - LastNumber(fmt);
    OtherField(a, b, p);
    assert FieldAt(a, p) != FieldAt(b, p);
  }

  lemma OtherField(a: seq<byte>, b: seq<byte>, p: nat)
    requires p + 4 <= |a| == |b| && a[p + 3] != b[p + 3]
    ensures FieldAt(a, p) != FieldAt(b, p)
  {
    hide U32Bytes, ReadU32;
    FieldBack(a, p);
    FieldBack(b, p);
    assert a[p..p + 4][3] == a[p + 3] && b[p..p + 4][3] == b[p + 3];
  }

  /** A flag whose other bytes are zero can be set and cleared. */
  lemma FlagLost(file: seq<byte>, fmt: Format, stop: nat, end: nat)
    requires fmt.Daikatana? && Load(file, As(fmt)).Success? && Load(file, As(fmt)).value.rows != []
    requires HEADER_SIZE <= end && stop <= |file|
    requires var h := Load(file, As(fmt)).value.header; stop == h.dirOffset + h.dirLength && fmt.RowSize() <= stop
    requires stop - 4 <= end < stop && !Padding(file, fmt, stop, end)
    ensures exists d: seq<byte> :: !SameRows(file, Splice(file, end, d), fmt)
  {
    hide Load, SameRows, Splice, ParseRow;
    var d0, d1 := Repeat(0, stop - end), Repeat(0, stop - end - 1) + [1];
    var f0, f1 := Splice(file, end, d0), Splice(file, end, d1);
    Overwritten(file, end, d0);
    Overwritten(file, end, d1);
    if SameRows(file, f0, fmt) && SameRows(file, f1, fmt) {
      LastRowKept(file, f0, fmt);
      LastRowKept(file, f1, fmt);
      FlagCleared(file, f0, stop, end);
      FlagRaised(f1, stop);
    }
    assert !SameRows(file, Splice(file, end, d0), fmt) || !SameRows(file, Splice(file, end, d1), fmt);
  }

  /** Overwriting inside the file keeps its size, what is before, and what is behind. */
  lemma Overwritten(file: seq<byte>, end: nat, d: seq<byte>)
    requires HEADER_SIZE <= end && end + |d| <= |file| && d != []
    ensures var r := Splice(file, end, d);
            && |r| == |file| && r[..HEADER_SIZE] == file[..HEADER_SIZE]
            && (forall i :: 0 <= i < end ==> r[i] == file[i])
                 && (forall i :: end <= i < end + |d| ==> r[i] == d[i - end])
  {}

  lemma FlagCleared(file: seq<byte>, f: seq<byte>, stop: nat, end: nat)
    requires 72 <= stop <= |file| == |f| && stop - 4 <= end < stop && !Padding(file, Daikatana, stop, end)
    requires (forall i :: 0 <= i < end ==> f[i] == file[i]) && forall i :: end <= i < stop ==> f[i] == 0
    ensures !ParseRow(Daikatana, LastBytes(f, Daikatana, stop)).compressed
  {
    hide CString;
    var row := LastBytes(f, Daikatana, stop);
    forall b | b in row[68..72] ensures b == 0 {
      var i :| 0 <= i < 4 && row[68..72][i] == b;
      assert b == f[stop - 4 + i];
    }
    ZeroBytes(row[68..72]);
  }

  lemma FlagRaised(f: seq<byte>, stop: nat)
    requires 72 <= stop <= |f| && f[stop - 1] == 1
    ensures ParseRow(Daikatana, LastBytes(f, Daikatana, stop)).compressed
  {
    hide CString;
    FlagSet(LastBytes(f, Daikatana, stop), 71);
  }

  /** A name that has not ended before `end` can be ended there, or not. */
  lemma NameLost(file: seq<byte>, fmt: Format, stop: nat, end: nat)
    requires fmt.Wad() && Load(file, As(fmt)).Success? && Load(file, As(fmt)).value.rows != [] && HEADER_SIZE <= end
    requires stop <= |file|
    requires var h := Load(file, As(fmt)).value.header; stop == h.dirOffset + h.dirLength && fmt.RowSize() <= stop
    requires stop - 8 <= end < stop && !Padding(file, fmt, stop, end)
    ensures exists d: seq<byte> :: !SameRows(file, Splice(file, end, d), fmt)
  {
    hide Load, SameRows, Splice, ParseRow, CString;
    var f0, f1 := Splice(file, end, [0]), Splice(file, end, [1]);
    Overwritten(file, end, [0]);
    Overwritten(file, end, [1]);
    if SameRows(file, f0, fmt) && SameRows(file, f1, fmt) {
      LastRowKept(file, f0, fmt);
      LastRowKept(file, f1, fmt);
      var a, b, k := f0[stop - 8..stop], f1[stop - 8..stop], end - (stop - 8);
      NameBytes(f0, fmt, stop);
      NameBytes(f1, fmt, stop);
      SameFront(file, f0, stop - 8, stop, end);
      SameFront(file, f1, stop - 8, stop, end);
      assert 0 !in file[stop - 8..end] by { NotEnded(file, fmt, stop, end); }
      NamesDiffer(a, b, k);
    }
    assert !SameRows(file, Splice(file, end, [0]), fmt) || !SameRows(file, Splice(file, end, [1]), fmt);
  }

  lemma NameBytes(f: seq<byte>, fmt: Format, stop: nat)
    requires fmt.Wad() && 16 <= stop <= |f|
    ensures ParseRow(fmt, LastBytes(f, fmt, stop)).name == CString(f[stop - 8..stop])
  {
    hide CString;
    assert LastBytes(f, fmt, stop)[8..] == f[stop - 8..stop];
  }

  lemma SameFront(file: seq<byte>, f: seq<byte>, from: nat, to: nat, end: nat)
    requires from <= end <= to <= |file| == |f| && forall i :: 0 <= i < end ==> f[i] == file[i]
    ensures f[from..to][..end - from] == file[from..end]
  {
    assert forall i :: 0 <= i < end - from ==> f[from..to][i] == file[from + i];
  }

  lemma NotEnded(file: seq<byte>, fmt: Format, stop: nat, end: nat)
    requires fmt.Wad() && 16 <= stop <= |file| && stop - 8 <= end < stop && !Padding(file, fmt, stop, end)
    ensures 0 !in file[stop - 8..end]
  {
    var part := file[stop - 8..end];
    forall b | b in part ensures b != 0 {
      var i :| 0 <= i < |part| && part[i] == b;
      assert file[stop - 8 + i] == b;
    }
  }

  lemma {:induction false} NamesDiffer(a: seq<byte>, b: seq<byte>, k: nat)
    requires k < |a| == |b| && a[..k] == b[..k] && 0 !in a[..k] && a[k] == 0 && b[k] == 1
    ensures CString(a) != CString(b)
    decreases k
  {
    if k > 0 {
      assert a[..k][0] == b[..k][0];
      assert a[1..][..k - 1] == a[..k][1..] && b[1..][..k - 1] == b[..k][1..];
      NamesDiffer(a[1..], b[1..], k - 1);
      assert CString(a)[1..] == CString(a[1..]) && CString(b)[1..] == CString(b[1..]);
    }
  }
}
