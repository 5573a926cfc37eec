/** The PAK-class files as their formats are published: tags, numbers and names at fixed places in the bytes.
    Opening and writing are held against this description. */
module PakOnDisk {
  import opened ByteStrings
  import opened Outcomes
  import opened PakFormat

  /** The number in the four bytes from p on, the lowest byte first. */
  function Word(f: seq<byte>, p: nat): nat
    requires p + 4 <= |f|
  {
    var a: int, b: int, c: int, d: int := f[p], f[p + 1], f[p + 2], f[p + 3];
    a + 0x100 * b + 0x1_0000 * c + 0x100_0000 * d
  }

  /** The four characters at the front. */
  predicate Tagged(f: seq<byte>, w: string)
    requires |f| >= 4 && |w| == 4
  {
    f[0] == w[0] as int && f[1] == w[1] as int && f[2] == w[2] as int && f[3] == w[3] as int
  }

  function Tag(fmt: Format): (w: string)
    ensures |w| == 4
  {
    match fmt
    case Pak => "PACK"
    case Daikatana => "PACK"
    case Sin => "SPAK"
    case Iwad => "IWAD"
    case Pwad => "PWAD"
  }

  function NameWidth(fmt: Format): nat {
    match fmt
    case Pak => 56
    case Daikatana => 56
    case Sin => 120
    case Iwad => 8
    case Pwad => 8
  }

  /** Offset and length behind or before the name; a Daikatana row also has the packed size and a flag. */
  function RowWidth(fmt: Format): (n: nat)
    ensures n > 0
  {
    match fmt
    case Pak => 64
    case Daikatana => 72
    case Sin => 128
    case Iwad => 16
    case Pwad => 16
  }

  predicate IsWad(fmt: Format) { fmt == Iwad || fmt == Pwad }

  // ----- The header -----

  /** A WAD header has the number of rows and then the place of the directory; in the other formats the place
      comes first, and then the number of bytes. */
  function DirPlace(f: seq<byte>, fmt: Format): nat
    requires |f| >= 12
  {
    Word(f, if IsWad(fmt) then 8 else 4)
  }

  function DirSpan(f: seq<byte>, fmt: Format): nat
    requires |f| >= 12
  {
    if IsWad(fmt) then 16 * Word(f, 4) else Word(f, 8)
  }

  // ----- The rows -----

  /** Where the numbers of the row at p begin. */
  function Numbers(fmt: Format, p: nat): nat {
    if IsWad(fmt) then p else p + NameWidth(fmt)
  }

  function NamePlace(fmt: Format, p: nat): nat {
    if IsWad(fmt) then p + 8 else p
  }

  predicate Packed(f: seq<byte>, fmt: Format, p: nat)
    requires p + RowWidth(fmt) <= |f|
  {
    fmt == Daikatana && Word(f, p + 68) != 0
  }

  /** The bytes the payload takes up. */
  function Room(f: seq<byte>, fmt: Format, p: nat): nat
    requires p + RowWidth(fmt) <= |f|
  {
    Word(f, if Packed(f, fmt, p) then p + 64 else Numbers(fmt, p) + 4)
  }

  /** The payload is in the file and behind the header; an empty WAD lump may begin anywhere. */
  predicate InFile(f: seq<byte>, fmt: Format, p: nat)
    requires p + RowWidth(fmt) <= |f|
  {
    var at := Word(f, Numbers(fmt, p));
    (at >= 12 || (IsWad(fmt) && Word(f, p + 4) == 0)) && at + Room(f, fmt, p) <= |f|
  }

  /** The field of w bytes at p holds the name, ended by a zero unless it fills the field. */
  predicate Holds(f: seq<byte>, p: nat, w: nat, name: seq<byte>)
    requires p + w <= |f|
  {
    && |name| <= w && f[p..p + |name|] == name && 0 !in name
    && (|name| < w ==> f[p + |name|] == 0)
  }

  /** The row at p says this of an entry. */
  predicate Says(f: seq<byte>, fmt: Format, p: nat, r: Row)
    requires p + RowWidth(fmt) <= |f|
  {
    var n := Numbers(fmt, p);
    && Holds(f, NamePlace(fmt, p), NameWidth(fmt), r.name)
    && r.offset == Word(f, n) && r.length == Word(f, n + 4)
    && r.packed == (if fmt == Daikatana then Word(f, p + 64) else 0) && r.compressed == Packed(f, fmt, p)
    && r.source.None? && r.data.None?
  }

  /** Both fields hold the same name, of n bytes. */
  predicate Share(f: seq<byte>, p: nat, q: nat, w: nat, n: nat)
    requires p + w <= |f| && q + w <= |f| && n <= w
  {
    && f[p..p + n] == f[q..q + n] && 0 !in f[p..p + n]
    && (n < w ==> f[p + n] == 0 && f[q + n] == 0)
  }

  predicate SameName(f: seq<byte>, p: nat, q: nat, w: nat)
    requires p + w <= |f| && q + w <= |f|
  {
    exists n: nat :: n <= w && Share(f, p, q, w, n)
  }

  // ----- What a file opens as -----

  const LARGEST := 1048576

  function RowPlace(f: seq<byte>, fmt: Format, i: nat): nat
    requires |f| >= 12
  {
    DirPlace(f, fmt) + i * RowWidth(fmt)
  }

  predicate Outside(f: seq<byte>, fmt: Format, i: nat)
    requires |f| >= 12
  {
    var p := RowPlace(f, fmt, i);
    p + RowWidth(fmt) <= |f| && !InFile(f, fmt, p)
  }

  predicate Repeated(f: seq<byte>, fmt: Format, i: nat, j: nat)
    requires |f| >= 12
  {
    var p, q := RowPlace(f, fmt, i), RowPlace(f, fmt, j);
    && p + RowWidth(fmt) <= |f| && q + RowWidth(fmt) <= |f|
    && SameName(f, NamePlace(fmt, p), NamePlace(fmt, q), NameWidth(fmt))
  }

  /** Local headers, an end record alone, and spanned archives of the ZIP format. */
  predicate ZipTagged(f: seq<byte>, a: int, b: int)
    requires |f| >= 4
  {
    f[0] == 'P' as int && f[1] == 'K' as int && f[2] == a && f[3] == b
  }

  /** Why a file is refused for what its first twelve bytes say, or Ok. */
  function HeaderVerdict(f: seq<byte>, fmt: Format): (s: Status)
    ensures s == Ok ==> |f| >= 12 && Tagged(f, Tag(fmt)) && 12 <= DirPlace(f, fmt)
                        && DirPlace(f, fmt) + DirSpan(f, fmt) <= |f|
  {
    if |f| < 4 then IoError
    else if ZipTagged(f, 3, 4) || ZipTagged(f, 5, 6) then InvalidArgument
    else if ZipTagged(f, 7, 8) then Unsupported
    else if !Tagged(f, Tag(fmt)) then
      if Tagged(f, "PACK") || Tagged(f, "SPAK") || Tagged(f, "IWAD") || Tagged(f, "PWAD") then InvalidArgument
      else FormatError
    else if |f| < 12 then IoError
    else if IsWad(fmt) && Word(f, 4) > LARGEST then LimitError
    else if DirPlace(f, fmt) < 12 || DirPlace(f, fmt) + DirSpan(f, fmt) > |f| then FormatError
    else if DirSpan(f, fmt) % RowWidth(fmt) != 0 then FormatError
    else if DirSpan(f, fmt) / RowWidth(fmt) > LARGEST then LimitError
    else Ok
  }

  ghost predicate AnyOutside(f: seq<byte>, fmt: Format, n: nat)
    requires |f| >= 12
  {
    exists i: nat :: i < n && Outside(f, fmt, i)
  }

  ghost predicate AnyRepeated(f: seq<byte>, fmt: Format, n: nat)
    requires |f| >= 12
  {
    exists i: nat, j: nat :: i < j < n && Repeated(f, fmt, i, j)
  }

  /** Header and rows are those of a file of this format. */
  ghost predicate LaidOut(f: seq<byte>, fmt: Format) {
    HeaderVerdict(f, fmt) == Ok && !AnyOutside(f, fmt, DirSpan(f, fmt) / RowWidth(fmt))
  }

  /** Why a file does not open under the name of a format, or Ok if it does. */
  ghost function Verdict(f: seq<byte>, fmt: Format): Status {
    if HeaderVerdict(f, fmt) != Ok then HeaderVerdict(f, fmt)
    else if !LaidOut(f, fmt) then FormatError
    else if !IsWad(fmt) && AnyRepeated(f, fmt, DirSpan(f, fmt) / RowWidth(fmt)) then Duplicate
    else Ok
  }

  // ----- Fields -----

  lemma WordIs(f: seq<byte>, p: nat)
    requires p + 4 <= |f|
    ensures FieldAt(f, p) == Word(f, p)
  {
    FourBytes(f[p..p + 4]);
  }

  lemma FourBytes(s: seq<byte>)
    requires |s| == 4
    ensures ReadU32(s) == Word(s, 0)
  {
    assert s == [s[0], s[1], s[2], s[3]];
    assert s[1..] == [s[1], s[2], s[3]] && s[1..][1..] == [s[2], s[3]] && s[1..][1..][1..] == [s[3]];
    assert s[1..][1..][1..][1..] == [];
    assert FromLittleEndian([s[3]]) == s[3]
      && FromLittleEndian([s[2], s[3]]) == 0x100 * FromLittleEndian([s[3]]) + s[2];
    assert FromLittleEndian([s[1], s[2], s[3]]) == 0x100 * FromLittleEndian([s[2], s[3]]) + s[1];
  }

  lemma WordInside(f: seq<byte>, p: nat, n: nat, k: nat)
    requires p + n <= |f| && k + 4 <= n
    ensures FieldAt(f[p..p + n], k) == Word(f, p + k)
  {
    WordIs(f[p..p + n], k);
  }

  lemma {:induction false} CStringHolds(s: seq<byte>)
    ensures Holds(s, 0, |s|, CString(s))
    decreases |s|
  {
    if s != [] && s[0] != 0 {
      CStringHolds(s[1..]);
      var r := CString(s[1..]);
      assert s[..1 + |r|] == [s[0]] + s[1..][..|r|];
    }
  }

  lemma HoldsInside(f: seq<byte>, p: nat, w: nat, name: seq<byte>)
    requires p + w <= |f|
    ensures Holds(f[p..p + w], 0, w, name) <==> Holds(f, p, w, name)
  {
    if |name| <= w { assert f[p..p + w][..|name|] == f[p..p + |name|]; }
  }

  lemma HoldsOne(f: seq<byte>, p: nat, q: nat, w: nat, a: seq<byte>, b: seq<byte>)
    requires p + w <= |f| && q + w <= |f| && Holds(f, p, w, a) && Holds(f, q, w, b)
    ensures a == b <==> SameName(f, p, q, w)
  {
    if a == b { assert Share(f, p, q, w, |a|); }
    forall n: nat | n <= w && Share(f, p, q, w, n) ensures a == b {
      SharedLength(f, p, q, w, n, a);
      SharedLength(f, q, p, w, n, b);
    }
  }

  lemma SharedLength(f: seq<byte>, p: nat, q: nat, w: nat, n: nat, a: seq<byte>)
    requires p + w <= |f| && q + w <= |f| && n <= w && Share(f, p, q, w, n) && Holds(f, p, w, a)
    ensures |a| == n
  {
    NoZero(f, p, n);
    NoZero(f, p, |a|);
  }

  lemma NoZero(f: seq<byte>, p: nat, n: nat)
    requires p + n <= |f| && 0 !in f[p..p + n]
    ensures forall k :: p <= k < p + n ==> f[k] != 0
  {
    forall k | p <= k < p + n ensures f[k] != 0 {
      assert f[p..p + n][k - p] == f[k];
    }
  }

  // ----- Rows -----

  lemma Widths(fmt: Format)
    ensures fmt.RowSize() == RowWidth(fmt) && fmt.NameLen() == NameWidth(fmt) && fmt.Wad() == IsWad(fmt)
  {}

  lemma RowNumbers(f: seq<byte>, fmt: Format, p: nat)
    requires p + RowWidth(fmt) <= |f|
    ensures fmt.RowSize() == RowWidth(fmt)
    ensures var r, n := ParseRow(fmt, f[p..p + RowWidth(fmt)]), Numbers(fmt, p);
            && r.offset == Word(f, n) && r.length == Word(f, n + 4)
            && r.packed == (if fmt == Daikatana then Word(f, p + 64) else 0) && r.compressed == Packed(f, fmt, p)
            && r.source.None? && r.data.None?
  {
    hide CString, FieldAt, Word;
    var w := RowWidth(fmt);
    var n := if IsWad(fmt) then 0 else NameWidth(fmt);
    WordInside(f, p, w, n);
    WordInside(f, p, w, n + 4);
    if fmt == Daikatana {
      WordInside(f, p, w, 64);
      WordInside(f, p, w, 68);
    }
  }

  lemma RowName(f: seq<byte>, fmt: Format, p: nat)
    requires p + RowWidth(fmt) <= |f|
    ensures fmt.RowSize() == RowWidth(fmt)
    ensures Holds(f, NamePlace(fmt, p), NameWidth(fmt), ParseRow(fmt, f[p..p + RowWidth(fmt)]).name)
  {
    hide CString, FieldAt, Holds;
    var s, q, n := f[p..p + RowWidth(fmt)], NamePlace(fmt, p), NameWidth(fmt);
    var field := f[q..q + n];
    InnerSlice(f, p, RowWidth(fmt), q - p, q - p + n);
    assert field == if IsWad(fmt) then s[8..] else s[..n];
    CStringHolds(field);
    HoldsInside(f, q, n, CString(field));
  }

  lemma RowSaysIt(f: seq<byte>, fmt: Format, p: nat)
    requires p + RowWidth(fmt) <= |f|
    ensures fmt.RowSize() == RowWidth(fmt) && Says(f, fmt, p, ParseRow(fmt, f[p..p + RowWidth(fmt)]))
    ensures InRange(fmt, ParseRow(fmt, f[p..p + RowWidth(fmt)]), |f|) <==> InFile(f, fmt, p)
  {
    hide ParseRow, Holds, Word;
    RowNumbers(f, fmt, p);
    RowName(f, fmt, p);
  }

  lemma TailSlice(s: seq<byte>, w: nat, a: nat, b: nat)
    requires a <= b && w + b <= |s|
    ensures s[w..][a..b] == s[w + a..w + b]
  {}

  /** The i-th of the stretches of w bytes that s is made of. */
  function Stretch(s: seq<byte>, w: nat, i: nat): (t: seq<byte>)
    requires i * w + w <= |s|
    ensures |t| == w
  {
    NonNegative(i, w);
    s[i * w..i * w + w]
  }

  lemma NonNegative(i: nat, w: nat)
    ensures 0 <= i * w
  {}

  lemma StretchFits(w: nat, i: nat, n: nat)
    requires i < n
    ensures i * w + w <= n * w
  {
    assert (i + 1) * w == i * w + w;
    MoreRows(w, i + 1, n);
  }

  lemma NextStretch(s: seq<byte>, w: nat, i: nat)
    requires i * w + w + w <= |s|
    ensures w <= |s| && (i + 1) * w + w <= |s| && i * w + w <= |s[w..]|
    ensures Stretch(s[w..], w, i) == Stretch(s, w, i + 1)
  {
    NonNegative(i, w);
    assert (i + 1) * w == i * w + w;
    TailSlice(s, w, i * w, i * w + w);
  }

  lemma {:induction false} ParsedAt(fmt: Format, s: seq<byte>, n: nat, i: nat)
    requires |s| == n * fmt.RowSize() && i < n
    ensures |ParseDir(fmt, s)| == n && i * fmt.RowSize() + fmt.RowSize() <= |s|
    ensures ParseDir(fmt, s)[i] == ParseRow(fmt, Stretch(s, fmt.RowSize(), i))
    decreases n
  {
    hide ParseRow, Format.RowSize;
    var w := fmt.RowSize();
    OneMoreRow(fmt, n - 1);
    StretchFits(w, i, n);
    var rest := s[w..];
    if n == 1 {
      assert rest == [] && ParseDir(fmt, rest) == [];
    } else {
      ParsedAt(fmt, rest, n - 1, if i == 0 then 0 else i - 1);
    }
    if i > 0 {
      OneMoreRow(fmt, i - 1);
      NextStretch(s, w, i - 1);
    }
  }

  // ----- Opening -----

  lemma TagIs(f: seq<byte>, w: string, tag: seq<byte>)
    requires |f| >= 4 && |w| == |tag| == 4 && forall k :: 0 <= k < 4 ==> tag[k] == w[k] as int
    ensures f[..4] == tag <==> Tagged(f, w)
  {
    var m := f[..4];
    assert m[0] == f[0] && m[1] == f[1] && m[2] == f[2] && m[3] == f[3];
    assert tag[0] == w[0] as int && tag[1] == w[1] as int && tag[2] == w[2] as int && tag[3] == w[3] as int;
  }

  lemma ZipTagIs(f: seq<byte>, a: byte, b: byte)
    requires |f| >= 4
    ensures f[..4] == [0x50, 0x4B, a, b] <==> ZipTagged(f, a, b)
  {
    var m := f[..4];
    assert m[0] == f[0] && m[1] == f[1] && m[2] == f[2] && m[3] == f[3];
  }

  /** The tag settles the format as far as a tag can. */
  lemma ClassifyIs(f: seq<byte>, hint: Hint)
    requires |f| >= 4
    ensures Classify(f[..4], hint) ==
              if ZipTagged(f, 3, 4) || ZipTagged(f, 5, 6) then
                if hint.As? then Failure(InvalidArgument) else Success(Zip)
              else if ZipTagged(f, 7, 8) then Failure(Unsupported)
              else if Tagged(f, "PACK") then
                if hint.Auto? || hint == As(Pak) then Success(PakClass(Pak))
                else if hint == As(Daikatana) then Success(PakClass(Daikatana))
                else Failure(InvalidArgument)
              else if Tagged(f, "SPAK") then
                if hint.Auto? || hint == As(Sin) then Success(PakClass(Sin)) else Failure(InvalidArgument)
              else if Tagged(f, "IWAD") then
                if hint.Auto? || hint == As(Iwad) then Success(PakClass(Iwad)) else Failure(InvalidArgument)
              else if Tagged(f, "PWAD") then
                if hint.Auto? || hint == As(Pwad) then Success(PakClass(Pwad)) else Failure(InvalidArgument)
              else Failure(FormatError)
  {
    TagIs(f, "PACK", Pak.Signature());
    TagIs(f, "SPAK", Sin.Signature());
    TagIs(f, "IWAD", Iwad.Signature());
    TagIs(f, "PWAD", Pwad.Signature());
    ZipTagIs(f, 3, 4);
    ZipTagIs(f, 5, 6);
    ZipTagIs(f, 7, 8);
  }

  lemma HeaderIs(f: seq<byte>, fmt: Format)
    ensures LoadHeader(f, As(fmt)) ==
              if HeaderVerdict(f, fmt) == Ok then Success(Header(fmt, DirPlace(f, fmt), DirSpan(f, fmt)))
              else Failure(HeaderVerdict(f, fmt))
  {
    hide Classify, FieldAt, Word;
    Widths(fmt);
    if |f| >= 4 { ClassifyIs(f, As(fmt)); }
    if |f| >= 12 {
      WordIs(f, 4);
      WordIs(f, 8);
    }
  }

  lemma RowInside(f: seq<byte>, fmt: Format, n: nat, i: nat)
    requires |f| >= 12 && n * RowWidth(fmt) == DirSpan(f, fmt) && i < n
    requires DirPlace(f, fmt) + DirSpan(f, fmt) <= |f|
    ensures RowPlace(f, fmt, i) + RowWidth(fmt) <= |f| && (i + 1) * RowWidth(fmt) == i * RowWidth(fmt) + RowWidth(fmt)
    ensures (i + 1) * RowWidth(fmt) <= DirSpan(f, fmt)
  {
    assert (i + 1) * RowWidth(fmt) <= n * RowWidth(fmt);
  }

  lemma InnerSlice(f: seq<byte>, at: nat, n: nat, a: nat, b: nat)
    requires at + n <= |f| && a <= b <= n
    ensures f[at..at + n][a..b] == f[at + a..at + b]
  {
    var s, t := f[at..at + n][a..b], f[at + a..at + b];
    assert |s| == |t| && forall k :: 0 <= k < |s| ==> s[k] == t[k];
  }

  lemma StretchInside(f: seq<byte>, at: nat, n: nat, w: nat, i: nat)
    requires at + n <= |f| && i * w + w <= n
    ensures 0 <= i * w && Stretch(f[at..at + n], w, i) == f[at + i * w..at + i * w + w]
  {
    NonNegative(i, w);
    InnerSlice(f, at, n, i * w, i * w + w);
  }

  /** The rows of the directory, as they are read and as they are described. */
  lemma RowIs(f: seq<byte>, fmt: Format, n: nat, i: nat)
    requires |f| >= 12 && n * RowWidth(fmt) == DirSpan(f, fmt) && i < n
    requires DirPlace(f, fmt) + DirSpan(f, fmt) <= |f|
    ensures var p, rows := RowPlace(f, fmt, i), ParseDir(fmt, f[DirPlace(f, fmt)..DirPlace(f, fmt) + DirSpan(f, fmt)]);
            && |rows| == n && p + RowWidth(fmt) <= |f| && Says(f, fmt, p, rows[i])
            && (InRange(fmt, rows[i], |f|) <==> InFile(f, fmt, p))
  {
    hide ParseRow, Says, InFile, DirPlace, DirSpan;
    Widths(fmt);
    RowInside(f, fmt, n, i);
    var at, w := DirPlace(f, fmt), RowWidth(fmt);
    var dir := f[at..at + DirSpan(f, fmt)];
    ParsedAt(fmt, dir, n, i);
    StretchInside(f, at, DirSpan(f, fmt), w, i);
    RowSaysIt(f, fmt, RowPlace(f, fmt, i));
  }

  /** All rows at once. */
  lemma RowsAre(f: seq<byte>, fmt: Format, n: nat)
    requires |f| >= 12 && n * RowWidth(fmt) == DirSpan(f, fmt) && DirPlace(f, fmt) + DirSpan(f, fmt) <= |f|
    ensures var rows := ParseDir(fmt, f[DirPlace(f, fmt)..DirPlace(f, fmt) + DirSpan(f, fmt)]);
            && |rows| == n
            && (forall i :: 0 <= i < n ==> Described(f, fmt, i, rows[i]))
            && ((exists r <- rows :: !InRange(fmt, r, |f|)) <==> AnyOutside(f, fmt, n))
            && (!DistinctNames(rows) <==> AnyRepeated(f, fmt, n))
  {
    hide ParseDir, Says, InFile, DirPlace, DirSpan, InRange, DistinctNames, AnyRepeated;
    var rows := ParseDir(fmt, f[DirPlace(f, fmt)..DirPlace(f, fmt) + DirSpan(f, fmt)]);
    if n == 0 { NoRowsAtAll(f, fmt); } else { RowIs(f, fmt, n, 0); }
    forall i | 0 <= i < n
      ensures Described(f, fmt, i, rows[i]) && (InRange(fmt, rows[i], |f|) <==> !Outside(f, fmt, i)) {
      RowIs(f, fmt, n, i);
    }
    assert forall i :: 0 <= i < n ==> rows[i] in rows;
    NamesAre(f, fmt, rows);
  }

  lemma NamesAre(f: seq<byte>, fmt: Format, rows: seq<Row>)
    requires |f| >= 12 && forall i :: 0 <= i < |rows| ==> Described(f, fmt, i, rows[i])
    ensures !DistinctNames(rows) <==> AnyRepeated(f, fmt, |rows|)
  {
    hide Described, Repeated;
    forall i, j | 0 <= i < j < |rows| ensures rows[i].name == rows[j].name <==> Repeated(f, fmt, i, j) {
      NamesOf(f, fmt, i, j, rows[i], rows[j]);
    }
  }

  predicate Described(f: seq<byte>, fmt: Format, i: nat, r: Row)
    requires |f| >= 12
  {
    RowPlace(f, fmt, i) + RowWidth(fmt) <= |f| && Says(f, fmt, RowPlace(f, fmt, i), r)
  }

  lemma NoRowsAtAll(f: seq<byte>, fmt: Format)
    requires |f| >= 12 && DirSpan(f, fmt) == 0 && DirPlace(f, fmt) <= |f|
    ensures ParseDir(fmt, f[DirPlace(f, fmt)..DirPlace(f, fmt) + DirSpan(f, fmt)]) == []
  {
    Widths(fmt);
  }

  lemma NamesOf(f: seq<byte>, fmt: Format, i: nat, j: nat, a: Row, b: Row)
    requires |f| >= 12 && Described(f, fmt, i, a) && Described(f, fmt, j, b)
    ensures a.name == b.name <==> Repeated(f, fmt, i, j)
  {
    hide Holds, SameName, DirPlace, Word, Room, Packed;
    HoldsOne(f, NamePlace(fmt, RowPlace(f, fmt, i)), NamePlace(fmt, RowPlace(f, fmt, j)), NameWidth(fmt), a.name,
             b.name);
  }

  /** The last payload ends there, or the header if none reaches further. */
  predicate PayloadsEnd(rows: seq<Row>, e: nat) {
    && 12 <= e && (forall r <- rows :: r.offset + (if r.compressed then r.packed else r.length) <= e)
    && (e == 12 || exists r <- rows :: r.offset + (if r.compressed then r.packed else r.length) == e)
  }

  lemma {:induction false} PayloadEndIs(rows: seq<Row>)
    ensures PayloadsEnd(rows, PayloadEnd(rows))
  {
    if rows != [] { PayloadEndIs(rows[..|rows| - 1]); }
  }

  /** A file opens under the name of a format exactly if the description says so, and then with the rows that it
      describes, in order; otherwise it is refused with the description's reason. */
  lemma OpensExactly(f: seq<byte>, fmt: Format)
    ensures match Load(f, As(fmt))
            case Failure(s) => s == Verdict(f, fmt) && s != Ok
            case Success(o) =>
              && Verdict(f, fmt) == Ok && o.header == Header(fmt, DirPlace(f, fmt), DirSpan(f, fmt))
              && |o.rows| * RowWidth(fmt) == DirSpan(f, fmt)
              && (forall i :: 0 <= i < |o.rows| ==> Described(f, fmt, i, o.rows[i]))
              && PayloadsEnd(o.rows, o.payloadEnd)
  {
    hide LoadHeader, HeaderVerdict, InRange, ParseDir, DistinctNames, PayloadEnd, AnyOutside, AnyRepeated, DirPlace,
      DirSpan, Described, PayloadsEnd;
    HeaderIs(f, fmt);
    Widths(fmt);
    if Load(f, As(fmt)).Success? { PayloadEndIs(Load(f, As(fmt)).value.rows); }
    if HeaderVerdict(f, fmt) == Ok {
      WholeSpan(f, fmt);
      RowsAre(f, fmt, DirSpan(f, fmt) / RowWidth(fmt));
    }
  }

  lemma WholeSpan(f: seq<byte>, fmt: Format)
    requires HeaderVerdict(f, fmt) == Ok
    ensures DirSpan(f, fmt) / RowWidth(fmt) * RowWidth(fmt) == DirSpan(f, fmt)
  {
    hide Word;
  }

  /** The directory of n rows at its place reads as one of this format. */
  lemma ProbeIs(f: seq<byte>, fmt: Format)
    requires (fmt == Pak || fmt == Daikatana) && |f| >= 12 && Tagged(f, "PACK")
    requires 12 <= Word(f, 4) && Word(f, 4) + Word(f, 8) <= |f|
    ensures Probe(f, fmt, Word(f, 4), Word(f, 8)) <==> LaidOut(f, fmt)
  {
    hide Word, InRange, ParseDir, AnyOutside, AnyRepeated, DistinctNames, Described;
    Widths(fmt);
    if Word(f, 8) % RowWidth(fmt) == 0 {
      WholeRows(Word(f, 8), RowWidth(fmt));
      RowsAre(f, fmt, Word(f, 8) / RowWidth(fmt));
    }
  }

  lemma WholeRows(n: nat, w: nat)
    requires w > 0 && n % w == 0
    ensures n / w * w == n
  {}

  /** What the header of a Quake or Daikatana file says can be looked at. */
  predicate Placed(f: seq<byte>) {
    |f| >= 12 && 12 <= Word(f, 4) && Word(f, 4) + Word(f, 8) <= |f|
  }

  lemma AutoHeader(f: seq<byte>)
    requires |f| >= 4 && (Tagged(f, "PACK") ==> !Placed(f) || Word(f, 8) == 0)
    ensures LoadHeader(f, Auto) ==
              if ZipTagged(f, 3, 4) || ZipTagged(f, 5, 6) || ZipTagged(f, 7, 8) then Failure(Unsupported)
              else if Tagged(f, "SPAK") then LoadHeader(f, As(Sin))
              else if Tagged(f, "IWAD") then LoadHeader(f, As(Iwad))
              else if Tagged(f, "PWAD") then LoadHeader(f, As(Pwad))
              else if !Tagged(f, "PACK") then Failure(FormatError)
              else LoadHeader(f, As(Pak))
  {
    hide Classify, Word, FieldAt, Probe;
    ClassifyIs(f, Auto);
    ClassifyIs(f, As(Sin));
    ClassifyIs(f, As(Iwad));
    ClassifyIs(f, As(Pwad));
    ClassifyIs(f, As(Pak));
    if |f| >= 12 {
      WordIs(f, 4);
      WordIs(f, 8);
    }
  }

  lemma SharedTagHeader(f: seq<byte>)
    requires |f| >= 4 && Tagged(f, "PACK") && Placed(f) && Word(f, 8) > 0
    ensures LoadHeader(f, Auto) ==
              if LaidOut(f, Pak) == LaidOut(f, Daikatana) then Failure(FormatError)
              else LoadHeader(f, As(if LaidOut(f, Pak) then Pak else Daikatana))
  {
    hide Classify, Word, FieldAt, Probe, LaidOut;
    ClassifyIs(f, Auto);
    ClassifyIs(f, As(Pak));
    ClassifyIs(f, As(Daikatana));
    WordIs(f, 4);
    WordIs(f, 8);
    ProbeIs(f, Pak);
    ProbeIs(f, Daikatana);
  }

  /** Without a hint a file opens as its tag says; the tag that Quake and Daikatana share stands for the one whose
      rows the directory fits, if it is not empty and does not fit both. */
  lemma WithoutHintExactly(f: seq<byte>)
    ensures Load(f, Auto) ==
              if |f| < 4 then Failure(IoError)
              else if ZipTagged(f, 3, 4) || ZipTagged(f, 5, 6) || ZipTagged(f, 7, 8) then Failure(Unsupported)
              else if Tagged(f, "SPAK") then Load(f, As(Sin))
              else if Tagged(f, "IWAD") then Load(f, As(Iwad))
              else if Tagged(f, "PWAD") then Load(f, As(Pwad))
              else if !Tagged(f, "PACK") then Failure(FormatError)
              else if !Placed(f) || Word(f, 8) == 0 then Load(f, As(Pak))
              else if LaidOut(f, Pak) == LaidOut(f, Daikatana) then Failure(FormatError)
              else Load(f, As(if LaidOut(f, Pak) then Pak else Daikatana))
  {
    hide LoadHeader, Word, ParseDir, InRange, DistinctNames, PayloadEnd, LaidOut;
    if |f| < 4 {
      TooShort(f);
    } else if Tagged(f, "PACK") && Placed(f) && Word(f, 8) > 0 {
      SharedTagHeader(f);
    } else {
      AutoHeader(f);
    }
  }

  lemma TooShort(f: seq<byte>)
    requires |f| < 4
    ensures LoadHeader(f, Auto) == Failure(IoError)
  {}

  // ----- Writing -----

  /** The field of w bytes at p holds the name, and zeros behind it. */
  predicate Padded(f: seq<byte>, p: nat, w: nat, name: seq<byte>)
    requires p + w <= |f|
  {
    && |name| <= w && f[p..p + |name|] == name
    && forall k :: p + |name| <= k < p + w ==> f[k] == 0
  }

  /** The row at p is written out for an entry: its name, zeros up to the end of the field, and its numbers. */
  predicate Wrote(f: seq<byte>, fmt: Format, p: nat, r: Row)
    requires p + RowWidth(fmt) <= |f|
  {
    var n := Numbers(fmt, p);
    && Padded(f, NamePlace(fmt, p), NameWidth(fmt), r.name)
    && Word(f, n) == r.offset && Word(f, n + 4) == r.length
    && (fmt == Daikatana ==> Word(f, p + 64) == r.packed && Word(f, p + 68) == if r.compressed then 1 else 0)
  }

  lemma WordOf(v: u32)
    ensures Word(U32Bytes(v), 0) == v
  {
    U32RoundTrip(v);
    WordIs(U32Bytes(v), 0);
    assert U32Bytes(v)[0..4] == U32Bytes(v);
  }

  lemma WordAt(s: seq<byte>, p: nat, v: u32)
    requires p + 4 <= |s| && s[p..p + 4] == U32Bytes(v)
    ensures Word(s, p) == v
  {
    WordOf(v);
    var t := s[p..p + 4];
    assert t[0] == s[p] && t[1] == s[p + 1] && t[2] == s[p + 2] && t[3] == s[p + 3];
  }

  lemma FieldPadded(f: seq<byte>, p: nat, w: nat, name: seq<byte>)
    requires p + w <= |f| && |name| <= w && f[p..p + w] == NameField(name, w)
    ensures Padded(f, p, w, name)
  {
    var t := f[p..p + w];
    forall k | 0 <= k < w ensures f[p + k] == if k < |name| then name[k] else 0 {
      assert t[k] == f[p + k];
    }
  }

  lemma NameWrote(fmt: Format, r: Row)
    requires Fits(fmt, r)
    ensures fmt.RowSize() == RowWidth(fmt) && Padded(RowBytes(fmt, r), NamePlace(fmt, 0), NameWidth(fmt), r.name)
  {
    hide U32Bytes, NameField, Padded;
    var s, q, w := RowBytes(fmt, r), NamePlace(fmt, 0), NameWidth(fmt);
    assert s[q..q + w] == NameField(r.name, w);
    FieldPadded(s, q, w, r.name);
  }

  lemma RowWrote(fmt: Format, r: Row)
    requires Fits(fmt, r)
    ensures fmt.RowSize() == RowWidth(fmt) && Wrote(RowBytes(fmt, r), fmt, 0, r)
  {
    hide U32Bytes, Word, NameField, Padded;
    NameWrote(fmt, r);
    var s, n := RowBytes(fmt, r), Numbers(fmt, 0);
    var name, o, l := NameField(r.name, NameWidth(fmt)), U32Bytes(r.offset), U32Bytes(r.length);
    if IsWad(fmt) {
      Middle([], o, l + name, s);
      Middle(o, l, name, s);
    } else if fmt == Daikatana {
      var k, c := U32Bytes(r.packed), U32Bytes(if r.compressed then 1 else 0);
      assert s == name + o + l + k + c;
      Middle(name, o, l + k + c, s);
      Middle(name + o, l, k + c, s);
      Middle(name + o + l, k, c, s);
      Middle(name + o + l + k, c, [], s);
    } else {
      Middle(name, o, l, s);
      Middle(name + o, l, [], s);
    }
    WordAt(s, n, r.offset);
    WordAt(s, n + 4, r.length);
    if fmt == Daikatana {
      WordAt(s, 64, r.packed);
      WordAt(s, 68, if r.compressed then 1 else 0);
    }
  }

  lemma PaddedInside(f: seq<byte>, p: nat, n: nat, q: nat, w: nat, name: seq<byte>)
    requires p + n <= |f| && q + w <= n && Padded(f[p..p + n], q, w, name)
    ensures Padded(f, p + q, w, name)
  {
    var s := f[p..p + n];
    InnerSlice(f, p, n, q, q + |name|);
    forall k | p + q + |name| <= k < p + q + w ensures f[k] == 0 {
      assert s[k - p] == f[k];
    }
  }

  lemma WordShift(f: seq<byte>, p: nat, n: nat, k: nat)
    requires p + n <= |f| && k + 4 <= n
    ensures Word(f[p..p + n], k) == Word(f, p + k)
  {
    WordInside(f, p, n, k);
    WordIs(f[p..p + n], k);
  }

  lemma WroteInside(f: seq<byte>, fmt: Format, p: nat, r: Row)
    requires p + RowWidth(fmt) <= |f| && Wrote(f[p..p + RowWidth(fmt)], fmt, 0, r)
    ensures Wrote(f, fmt, p, r)
  {
    hide Word, Padded;
    var w, n := RowWidth(fmt), Numbers(fmt, 0);
    PaddedInside(f, p, w, NamePlace(fmt, 0), NameWidth(fmt), r.name);
    WordShift(f, p, w, n);
    WordShift(f, p, w, n + 4);
    if fmt == Daikatana {
      WordShift(f, p, w, 64);
      WordShift(f, p, w, 68);
    }
  }

  lemma {:induction false} DirAt(fmt: Format, rows: seq<Row>, i: nat)
    requires AllFit(fmt, rows) && i < |rows|
    ensures |DirBytes(fmt, rows)| == |rows| * fmt.RowSize()
    ensures i * fmt.RowSize() + fmt.RowSize() <= |DirBytes(fmt, rows)|
    ensures Fits(fmt, rows[i]) && Stretch(DirBytes(fmt, rows), fmt.RowSize(), i) == RowBytes(fmt, rows[i])
    decreases |rows|
  {
    hide RowBytes, Fits, Format.RowSize;
    var w, d := fmt.RowSize(), DirBytes(fmt, rows);
    DirLength(fmt, rows);
    StretchFits(w, i, |rows|);
    assert rows[i] in rows;
    if i > 0 {
      DirAt(fmt, rows[1..], i - 1);
      OneMoreRow(fmt, i - 1);
      assert d[w..] == DirBytes(fmt, rows[1..]);
      NextStretch(d, w, i - 1);
    }
  }

  lemma MoreRows(w: nat, m: nat, n: nat)
    requires m <= n
    ensures m * w <= n * w
  {}

  /** A commit writes tag, header and rows as the formats are described, and the payloads before `end` stay. */
  lemma WrittenAsDescribed(base: seq<byte>, fmt: Format, rows: seq<Row>, end: nat)
    requires Writable(fmt, rows, end) && Addressable(fmt, rows, end)
    ensures var f := Image(base, fmt, rows, end);
            && |f| >= 12 && Tagged(f, Tag(fmt)) && DirPlace(f, fmt) == (if rows == [] then 12 else end)
            && DirSpan(f, fmt) == |rows| * RowWidth(fmt)
            && forall i :: 0 <= i < |rows| ==> Recorded(f, fmt, i, rows[i])
  {
    hide AllFit, DirBytes, Writable, Image, U32Bytes, Word, FieldAt;
    WritableEnd(fmt, rows, end);
    EmptyDirectory(fmt, rows);
    ImageLayout(base, fmt, rows, end);
    DirLength(fmt, rows);
    RowCount(fmt, |rows|);
    Widths(fmt);
    var f, dir := Image(base, fmt, rows, end), DirBytes(fmt, rows);
    HeaderFieldsBack(f, fmt, DirOffset(rows, end), |dir|);
    WordIs(f, 4);
    WordIs(f, 8);
    TagIs(f, Tag(fmt), fmt.Signature());
    forall i | 0 <= i < |rows| ensures Recorded(f, fmt, i, rows[i]) {
      RowRecorded(f, fmt, rows, i, DirOffset(rows, end));
    }
  }

  predicate Recorded(f: seq<byte>, fmt: Format, i: nat, r: Row)
    requires |f| >= 12
  {
    RowPlace(f, fmt, i) + RowWidth(fmt) <= |f| && Wrote(f, fmt, RowPlace(f, fmt, i), r)
  }

  lemma RowRecorded(f: seq<byte>, fmt: Format, rows: seq<Row>, i: nat, at: nat)
    requires |f| >= 12 && AllFit(fmt, rows) && i < |rows| && at == DirPlace(f, fmt)
    requires at + |DirBytes(fmt, rows)| <= |f| && f[at..at + |DirBytes(fmt, rows)|] == DirBytes(fmt, rows)
    ensures Recorded(f, fmt, i, rows[i])
  {
    hide AllFit, DirBytes, Wrote, DirPlace;
    Widths(fmt);
    var w, dir := RowWidth(fmt), DirBytes(fmt, rows);
    DirAt(fmt, rows, i);
    RowWrote(fmt, rows[i]);
    StretchInside(f, at, |dir|, w, i);
    WroteInside(f, fmt, at + i * w, rows[i]);
  }
}
