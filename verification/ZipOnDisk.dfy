/** ZIP files as the PKWARE APPNOTE describes them: the fields of the records at their places in the file, and
    what a file with any extra fields, comments and gaps opens as. */
module ZipOnDisk {
  import opened ByteStrings
  import opened Outcomes
  import opened PakOnDisk
  import opened ZipFormat
  import PakFormat
  import ZipMeanings
  import ZipNames
  import Utf8

  /** The number in the two bytes from p on, the lower byte first. */
  function Half(f: seq<byte>, p: nat): nat
    requires p + 2 <= |f|
  {
    var a: int, b: int := f[p], f[p + 1];
    a + 0x100 * b
  }

  /** A record of this kind begins at p. */
  predicate Marks(f: seq<byte>, p: nat, a: int, b: int)
    requires p + 4 <= |f|
  {
    f[p] == 'P' as int && f[p + 1] == 'K' as int && f[p + 2] == a && f[p + 3] == b
  }

  // ----- The end record -----

  /** An end record at e whose comment ends the file. */
  predicate EndsAt(f: seq<byte>, e: nat) {
    e + 22 <= |f| && Marks(f, e, 5, 6) && e + 22 + Half(f, e + 20) == |f|
  }

  /** One disk, one count, no ZIP64 marks, and the directory before the record. */
  function EndVerdict(f: seq<byte>, e: nat): Status
    requires e + 22 <= |f|
  {
    var count, size, place := Half(f, e + 10), Word(f, e + 12), Word(f, e + 16);
    if Half(f, e + 4) != 0 || Half(f, e + 6) != 0 then Unsupported
    else if Half(f, e + 8) != count then FormatError
    else if count == 0xFFFF || size == 0xFFFF_FFFF || place == 0xFFFF_FFFF then Unsupported
    else if place + size > e then FormatError
    else Ok
  }

  // ----- A record of the central directory -----

  function RecordSize(f: seq<byte>, p: nat): nat
    requires p + 46 <= |f|
  {
    46 + Half(f, p + 28) + Half(f, p + 30) + Half(f, p + 32)
  }

  function RawName(f: seq<byte>, p: nat): seq<byte>
    requires p + 46 <= |f| && p + RecordSize(f, p) <= |f|
  {
    f[p + 46..p + 46 + Half(f, p + 28)]
  }

  /** Bits 0 and 3 of the flags: encrypted, and sizes known only behind the data. */
  predicate Bit(flags: nat, k: nat) {
    match k
    case 0 => flags % 2 == 1
    case 3 => flags / 8 % 2 == 1
    case _ => flags / 2048 % 2 == 1
  }

  /** An empty entry whose name ends in a slash is a directory, and left out. */
  predicate IsDirectory(f: seq<byte>, p: nat)
    requires p + 46 <= |f| && p + RecordSize(f, p) <= |f| && Half(f, p + 28) > 0
  {
    f[p + 46 + Half(f, p + 28) - 1] == '/' as int && Word(f, p + 20) == 0 && Word(f, p + 24) == 0
  }

  /** UTF-8 as it is; anything else as code page 437, if it is not flagged to be UTF-8. */
  function NameRead(raw: seq<byte>): seq<byte> {
    if Utf8.WellFormed(raw) then raw else ZipNames.Expand(raw)
  }

  function NameVerdict(raw: seq<byte>, flags: nat): Status {
    if !Utf8.WellFormed(raw) && Bit(flags, 11) then FormatError
    else if |NameRead(raw)| > 255 then LimitError
    else Ok
  }

  /** Why the record at p, in a directory that ends at `end`, is refused, or Ok. */
  function RecordVerdict(f: seq<byte>, p: nat, end: nat): (s: Status)
    requires end <= |f|
    ensures s == Ok ==> p + 46 <= end && p + RecordSize(f, p) <= end && 0 < Half(f, p + 28) < 256
  {
    if p + 46 > end || !Marks(f, p, 1, 2) || p + RecordSize(f, p) > end then FormatError
    else
      var flags, packing := Half(f, p + 8), Half(f, p + 10);
      if Bit(flags, 0) || Bit(flags, 3) then Unsupported
      else if Word(f, p + 20) == 0xFFFF_FFFF || Word(f, p + 24) == 0xFFFF_FFFF || Word(f, p + 42) == 0xFFFF_FFFF
      then Unsupported
      else if packing != 0 && packing != 8 then Unsupported
      else if Half(f, p + 28) == 0 then FormatError
      else if Half(f, p + 28) > 255 then LimitError
      else if Word(f, p + 38) / 0x1000_0000 == 0xA then UnsafeName
      else if IsDirectory(f, p) then Ok
      else if exists b <- RawName(f, p) :: b < 0x20 || b == 0x7F then FormatError
      else NameVerdict(RawName(f, p), flags)
  }

  // ----- A local header -----

  /** Where the payload begins: behind the local header, its name and its extra field. */
  function PayloadPlace(f: seq<byte>, l: nat): nat
    requires l + 30 <= |f|
  {
    l + 30 + Half(f, l + 26) + Half(f, l + 28)
  }

  /** Why the local header that the record at p tells of is refused, or Ok; `place` is where the directory begins. */
  function LocalVerdict(f: seq<byte>, p: nat, place: nat): Status
    requires p + 46 <= |f|
  {
    var l := Word(f, p + 42);
    if l + 30 > |f| then IoError
    else if !Marks(f, l, 3, 4) then FormatError
    else if Bit(Half(f, l + 6), 0) || Bit(Half(f, l + 6), 3) then Unsupported
    else if Half(f, l + 8) != Half(f, p + 10) || Word(f, l + 14) != Word(f, p + 16)
            || Word(f, l + 18) != Word(f, p + 20) || Word(f, l + 22) != Word(f, p + 24)
    then FormatError
    else if Half(f, p + 10) == 0 && Word(f, p + 20) != Word(f, p + 24) then FormatError
    else if PayloadPlace(f, l) > 0xFFFF_FFFF || PayloadPlace(f, l) + Word(f, p + 20) > place then FormatError
    else Ok
  }

  /** What the record at p and its local header say of an entry. */
  predicate Tells(f: seq<byte>, p: nat, e: Entry) {
    && p + 46 <= |f| && p + RecordSize(f, p) <= |f| && e.lfh + 30 <= |f|
    && e.name == NameRead(RawName(f, p))
    && e.packing == Half(f, p + 10) && e.crc == Word(f, p + 16)
    && e.csize == Word(f, p + 20) && e.usize == Word(f, p + 24)
    && e.lfh == Word(f, p + 42) && e.payload == e.offset == PayloadPlace(f, e.lfh)
    && e.source.None? && e.data.None?
  }

  // ----- Fields -----

  lemma HalfIs(f: seq<byte>, p: nat)
    requires p + 2 <= |f|
    ensures Field16(f, p) == Half(f, p)
  {
    var s := f[p..p + 2];
    assert s[1..] == [s[1]] && s[1..][1..] == [];
    assert FromLittleEndian([s[1]]) == s[1];
  }

  lemma WordIsField(f: seq<byte>, p: nat)
    requires p + 4 <= |f|
    ensures Field32(f, p) == Word(f, p)
  {
    WordIs(f, p);
  }

  lemma MarkIs(f: seq<byte>, p: nat, a: byte, b: byte)
    requires p + 4 <= |f|
    ensures f[p..p + 4] == [0x50, 0x4B, a, b] <==> Marks(f, p, a, b)
  {
    var m := f[p..p + 4];
    assert m[0] == f[p] && m[1] == f[p + 1] && m[2] == f[p + 2] && m[3] == f[p + 3];
  }

  /** The fields that records and local headers share, from the version on. */
  lemma MetaIs(f: seq<byte>, p: nat)
    requires p + 26 <= |f|
    ensures ReadMeta(f, p) == Meta(Half(f, p + 2), Half(f, p + 4), Word(f, p + 10), Word(f, p + 14), Word(f, p + 18),
                                   Half(f, p + 22), Half(f, p + 24))
  {
    hide Field16, Field32, Half, Word;
    HalfIs(f, p + 2);
    HalfIs(f, p + 4);
    WordIsField(f, p + 10);
    WordIsField(f, p + 14);
    WordIsField(f, p + 18);
    HalfIs(f, p + 22);
    HalfIs(f, p + 24);
  }

  // ----- The end record is the last one -----

  lemma {:induction false} ScanIs(f: seq<byte>, start: nat, i: int)
    requires start <= |f| && i + 22 <= |f| - start
    ensures match ScanBack(f, start, i)
            case None => forall e: nat :: start <= e <= start + i ==> !EndsAt(f, e)
            case Some(e) =>
              EndsAt(f, e) && start <= e && forall d: nat :: e < d <= start + i ==> !EndsAt(f, d)
    decreases i
  {
    hide EndsAt, Field16;
    if i >= 0 {
      ScanIs(f, start, i - 1);
      EndHere(f, start + i);
    }
  }

  lemma EndHere(f: seq<byte>, e: nat)
    requires e + 22 <= |f|
    ensures f[e..e + 4] == EOCD_SIGNATURE && e + 22 + Field16(f, e + 20) == |f| <==> EndsAt(f, e)
  {
    hide Half, Field16;
    MarkIs(f, e, 5, 6);
    HalfIs(f, e + 20);
  }

  /** The search finds the last end record whose comment ends the file, if there is one. */
  lemma EndFoundExactly(f: seq<byte>)
    ensures match FindEocd(f)
            case None => forall e: nat :: !EndsAt(f, e)
            case Some(e) => EndsAt(f, e) && forall d: nat :: e < d ==> !EndsAt(f, d)
  {
    if |f| >= 22 {
      var scan := Min(|f|, SCAN_MAX);
      ScanIs(f, |f| - scan, scan - EOCD_SIZE);
      assert forall e: nat :: EndsAt(f, e) ==> |f| - scan <= e <= |f| - 22;
    }
  }

  lemma EndIs(f: seq<byte>, e: nat)
    requires e + 22 <= |f|
    ensures CheckEocd(f, e) ==
              if EndVerdict(f, e) == Ok then Success(Eocd(Word(f, e + 16), Word(f, e + 12), Half(f, e + 10)))
              else Failure(EndVerdict(f, e))
  {
    hide Field16, Field32, Half, Word;
    HalfIs(f, e + 4);
    HalfIs(f, e + 6);
    HalfIs(f, e + 8);
    HalfIs(f, e + 10);
    WordIsField(f, e + 12);
    WordIsField(f, e + 16);
    HalfBound(f, e + 10);
  }

  lemma HalfBound(f: seq<byte>, p: nat)
    requires p + 2 <= |f|
    ensures Half(f, p) <= 0xFFFF
  {}

  // ----- Records -----

  lemma FieldShift(f: seq<byte>, p: nat, n: nat, k: nat)
    requires p + n <= |f|
    ensures k + 2 <= n ==> Half(f[p..p + n], k) == Half(f, p + k)
    ensures k + 4 <= n ==> Word(f[p..p + n], k) == Word(f, p + k)
    ensures k + 4 <= n ==> (Marks(f[p..p + n], k, 1, 2) <==> Marks(f, p + k, 1, 2))
  {}

  lemma NameIs(raw: seq<byte>, flags: u16)
    ensures ZipFormat.NameOf(raw, flags) ==
              if NameVerdict(raw, flags) == Ok then Success(NameRead(raw)) else Failure(NameVerdict(raw, flags))
  {
    hide Utf8.WellFormed, ZipNames.Expand;
  }

  lemma DirectoryMark(f: seq<byte>, p: nat)
    requires p + 46 <= |f| && p + RecordSize(f, p) <= |f| && Half(f, p + 28) > 0
    ensures ZipFormat.Marker(RawName(f, p), Word(f, p + 24), Word(f, p + 20)) <==> IsDirectory(f, p)
  {
    hide Half, Word;
  }

  /** The fields of the record at q of the directory, by their places in the file. */
  lemma RecordFields(f: seq<byte>, at: nat, end: nat, q: nat)
    requires at <= end <= |f| && at + q + 46 <= end
    ensures var cdr, p := f[at..end], at + q;
            && (cdr[q..q + 4] == CDR_SIGNATURE <==> Marks(f, p, 1, 2))
            && ReadMeta(cdr, q + 6) == Meta(Half(f, p + 8), Half(f, p + 10), Word(f, p + 16), Word(f, p + 20),
                                            Word(f, p + 24), Half(f, p + 28), Half(f, p + 30))
            && Field16(cdr, q + 32) == Half(f, p + 32) && Field32(cdr, q + 38) == Word(f, p + 38)
            && Field32(cdr, q + 42) == Word(f, p + 42)
  {
    hide Half, Word, Field16, Field32, ReadMeta, Marks;
    var cdr, n := f[at..end], end - at;
    MarkIs(cdr, q, 1, 2);
    MetaIs(cdr, q + 6);
    HalfIs(cdr, q + 32);
    WordIsField(cdr, q + 38);
    WordIsField(cdr, q + 42);
    FieldShift(f, at, n, q);
    FieldShift(f, at, n, q + 8);
    FieldShift(f, at, n, q + 10);
    FieldShift(f, at, n, q + 16);
    FieldShift(f, at, n, q + 20);
    FieldShift(f, at, n, q + 24);
    FieldShift(f, at, n, q + 28);
    FieldShift(f, at, n, q + 30);
    FieldShift(f, at, n, q + 32);
    FieldShift(f, at, n, q + 38);
    FieldShift(f, at, n, q + 42);
  }

  lemma RecordIs(f: seq<byte>, at: nat, end: nat, q: nat)
    requires at <= end <= |f|
    ensures var cdr, p := f[at..end], at + q;
            match CheckRecord(cdr, q)
            case Failure(s) => s == RecordVerdict(f, p, end) && s != Ok
            case Success(rec) =>
              && p + 46 <= end && p + RecordSize(f, p) <= end && 0 < Half(f, p + 28) < 256
              && rec == Record(Meta(Half(f, p + 8), Half(f, p + 10), Word(f, p + 16), Word(f, p + 20), Word(f, p + 24),
                                    Half(f, p + 28), Half(f, p + 30)),
                               Half(f, p + 32), Word(f, p + 42), IsDirectory(f, p))
              && rec.Length() == RecordSize(f, p) && cdr[q + 46..q + 46 + Half(f, p + 28)] == RawName(f, p)
              && RecordVerdict(f, p, end) == if IsDirectory(f, p) then Ok
                   else NameVerdict(RawName(f, p), Half(f, p + 8))
  {
    hide Half, Word, Field16, Field32, ReadMeta, Marks, NameVerdict, ZipFormat.Marker, IsDirectory;
    var cdr, p := f[at..end], at + q;
    if p + 46 <= end {
      RecordFields(f, at, end, q);
      if p + RecordSize(f, p) <= end {
        InnerSlice(f, at, end - at, q + 46, q + 46 + Half(f, p + 28));
        if Half(f, p + 28) > 0 { DirectoryMark(f, p); }
      }
    }
  }

  /** The records of files, without those of directories, and where the last record ends. */
  datatype Listing = Listing(places: seq<nat>, end: nat)

  predicate Inside(f: seq<byte>, p: nat) {
    p + 46 <= |f| && p + RecordSize(f, p) <= |f|
  }

  predicate AllInside(f: seq<byte>, ps: seq<nat>) {
    forall i :: 0 <= i < |ps| ==> Inside(f, ps[i])
  }

  /** n records one behind the other from p on. */
  function Records(f: seq<byte>, p: nat, n: nat, end: nat): (r: Result<Listing>)
    requires end <= |f|
    ensures r != Failure(Ok)
    ensures r.Success? ==> p <= r.value.end && AllInside(f, r.value.places)
    decreases n
  {
    if n == 0 then Success(Listing([], p))
    else if RecordVerdict(f, p, end) != Ok then Failure(RecordVerdict(f, p, end))
    else
      var rest :- Records(f, p + RecordSize(f, p), n - 1, end);
      Success(if IsDirectory(f, p) then rest else Listing([p] + rest.places, rest.end))
  }

  /** What the record at p says, before its local header has been looked at. */
  function Listed(f: seq<byte>, p: nat): Entry
    requires Inside(f, p)
  {
    HalfBound(f, p + 10);
    WordBound(f, p + 16);
    Entry(NameRead(RawName(f, p)), Half(f, p + 10), Word(f, p + 16), Word(f, p + 20), Word(f, p + 24), Word(f, p + 42),
          0,
          Word(f, p + 42), None, None)
  }

  lemma WordBound(f: seq<byte>, p: nat)
    requires p + 4 <= |f|
    ensures Word(f, p) <= 0xFFFF_FFFF
  {}

  function AllListed(f: seq<byte>, ps: seq<nat>): (es: seq<Entry>)
    requires AllInside(f, ps)
    ensures |es| == |ps| && forall i :: 0 <= i < |ps| ==> es[i] == Listed(f, ps[i])
  {
    if ps == [] then [] else [Listed(f, ps[0])] + AllListed(f, ps[1..])
  }

  /** The entry of the record at p in front of those of the rest; a directory is no entry. */
  function Prepended(f: seq<byte>, p: nat, rest: Result<(seq<Entry>, nat)>): Result<(seq<Entry>, nat)>
    requires Inside(f, p) && Half(f, p + 28) > 0
  {
    match rest
    case Failure(s) => Failure(s)
    case Success(r) => Success((if IsDirectory(f, p) then r.0 else [Listed(f, p)] + r.0, r.1))
  }

  lemma FirstRefused(f: seq<byte>, at: nat, end: nat, q: nat, n: nat)
    requires at <= end <= |f| && n > 0 && RecordVerdict(f, at + q, end) != Ok
    ensures ParseCdr(f[at..end], q, n) == Failure(RecordVerdict(f, at + q, end))
  {
    hide Half, Word, CheckRecord, RecordVerdict, IsDirectory, RecordSize, RawName, NameOf, NameVerdict, NameRead;
    RecordIs(f, at, end, q);
    if CheckRecord(f[at..end], q).Success? { NameIs(RawName(f, at + q), Half(f, at + q + 8)); }
  }

  /** Parsing one record more. */
  lemma FirstRead(f: seq<byte>, at: nat, end: nat, q: nat, n: nat, rest: Result<(seq<Entry>, nat)>)
    requires at <= end <= |f| && n > 0 && RecordVerdict(f, at + q, end) == Ok
    requires rest == ParseCdr(f[at..end], q + RecordSize(f, at + q), n - 1)
    ensures ParseCdr(f[at..end], q, n) == Prepended(f, at + q, rest)
  {
    hide Half, Word, CheckRecord, RecordVerdict, IsDirectory, RecordSize, RawName, NameOf, NameVerdict, NameRead;
    RecordIs(f, at, end, q);
    if CheckRecord(f[at..end], q).Success? { NameIs(RawName(f, at + q), Half(f, at + q + 8)); }
  }

  lemma {:induction false} RecordsAre(f: seq<byte>, at: nat, end: nat, q: nat, n: nat)
    requires at <= end <= |f|
    ensures ParseCdr(f[at..end], q, n) == match Records(f, at + q, n, end)
                                          case Failure(s) => Failure(s)
                                          case Success(z) => Success((AllListed(f, z.places), z.end - at))
    decreases n
  {
    hide ParseCdr, RecordVerdict, IsDirectory, RecordSize, Listed, AllListed, AllInside, Half, Word;
    if n == 0 {
      NoRecords(f, at, end, q);
    } else {
      var p := at + q;
      if RecordVerdict(f, p, end) != Ok {
        FirstRefused(f, at, end, q, n);
      } else {
        FirstRead(f, at, end, q, n, ParseCdr(f[at..end], q + RecordSize(f, p), n - 1));
        RecordsAre(f, at, end, q + RecordSize(f, p), n - 1);
        var rest := Records(f, p + RecordSize(f, p), n - 1, end);
        if rest.Success? && !IsDirectory(f, p) { OneListed(f, p, rest.value.places); }
      }
    }
  }

  lemma OneListed(f: seq<byte>, p: nat, ps: seq<nat>)
    requires Inside(f, p) && AllInside(f, ps)
    ensures AllInside(f, [p] + ps) && AllListed(f, [p] + ps) == [Listed(f, p)] + AllListed(f, ps)
  {
    hide Listed;
    assert ([p] + ps)[1..] == ps;
  }

  lemma NoRecords(f: seq<byte>, at: nat, end: nat, q: nat)
    requires at <= end <= |f|
    ensures ParseCdr(f[at..end], q, 0) == Success((AllListed(f, []), q))
  {
    assert AllListed(f, []) == [];
  }

  // ----- Local headers -----

  function EntryAt(f: seq<byte>, p: nat): (e: Entry)
    requires Inside(f, p) && Word(f, p + 42) + 30 <= |f|
    ensures Tells(f, p, e)
  {
    var place := PayloadPlace(f, Word(f, p + 42));
    Listed(f, p).(payload := place, offset := place)
  }

  lemma LocalIs(f: seq<byte>, p: nat, place: nat)
    requires Inside(f, p)
    ensures LocalVerdict(f, p, place) == Ok ==> Word(f, p + 42) + 30 <= |f|
    ensures CheckLfh(f, Listed(f, p), place) ==
              if LocalVerdict(f, p, place) == Ok then Success(EntryAt(f, p)) else Failure(LocalVerdict(f, p, place))
  {
    hide Half, Word, Field16, Field32, ReadMeta, Marks, RecordSize, NameRead, RawName;
    var l := Word(f, p + 42);
    if l + 30 <= |f| {
      MarkIs(f, l, 3, 4);
      MetaIs(f, l + 4);
    }
  }

  predicate HasLocal(f: seq<byte>, p: nat) {
    Inside(f, p) && Word(f, p + 42) + 30 <= |f|
  }

  /** Why the local header of one of these records is refused, the first that is, or Ok. */
  function LocalsVerdict(f: seq<byte>, ps: seq<nat>, place: nat): (s: Status)
    requires AllInside(f, ps)
    ensures s == Ok ==> forall i :: 0 <= i < |ps| ==> HasLocal(f, ps[i])
  {
    if ps == [] then Ok
    else
      assert Inside(f, ps[0]);
      if LocalVerdict(f, ps[0], place) != Ok then LocalVerdict(f, ps[0], place)
      else LocalsVerdict(f, ps[1..], place)
  }

  function EntriesAt(f: seq<byte>, ps: seq<nat>): (es: seq<Entry>)
    requires forall i :: 0 <= i < |ps| ==> HasLocal(f, ps[i])
    ensures |es| == |ps| && forall i :: 0 <= i < |ps| ==> Tells(f, ps[i], es[i])
  {
    if ps == [] then [] else assert HasLocal(f, ps[0]); [EntryAt(f, ps[0])] + EntriesAt(f, ps[1..])
  }

  lemma {:induction false} LocalsAre(f: seq<byte>, ps: seq<nat>, place: nat)
    requires AllInside(f, ps)
    ensures CheckLfhs(f, AllListed(f, ps), place) ==
              if LocalsVerdict(f, ps, place) == Ok then Success(EntriesAt(f, ps))
              else Failure(LocalsVerdict(f, ps, place))
    decreases |ps|
  {
    hide CheckLfh, LocalVerdict, Listed, EntryAt, Inside, Word, Tells;
    if ps != [] {
      LocalIs(f, ps[0], place);
      LocalsAre(f, ps[1..], place);
      assert AllListed(f, ps)[0] == Listed(f, ps[0]) && AllListed(f, ps)[1..] == AllListed(f, ps[1..]);
    }
  }

  // ----- What a file opens as -----

  /** The entries of the directory of `size` bytes from `place` on, with their local headers. */
  function Section(f: seq<byte>, place: nat, size: nat, count: nat): (r: Result<seq<Entry>>)
    requires place + size <= |f|
  {
    if count == 0 && size == 0 then Success([])
    else if count == 0 || size == 0 then Failure(FormatError)
    else if size > 0x400_0000 then Failure(LimitError)
    else
      var z :- Records(f, place, count, place + size);
      if z.end != place + size then Failure(FormatError)
      else if LocalsVerdict(f, z.places, place) != Ok then Failure(LocalsVerdict(f, z.places, place))
      else Success(EntriesAt(f, z.places))
  }

  /** What a file with its last end record at e opens as. */
  function Opening(f: seq<byte>, e: nat): Result<Opened>
    requires EndsAt(f, e)
  {
    if EndVerdict(f, e) != Ok then Failure(EndVerdict(f, e))
    else
      var entries :- Section(f, Word(f, e + 16), Word(f, e + 12), Half(f, e + 10));
      if AnyTwice(entries) then Failure(Duplicate) else Success(Opened(entries, Word(f, e + 16)))
  }

  /** Some name is there twice. */
  predicate AnyTwice(entries: seq<Entry>) {
    exists i, j :: 0 <= i < j < |entries| && entries[i].name == entries[j].name
  }

  /** A file opens as its last end record says that reaches the end of the file. */
  lemma ZipOpensExactly(f: seq<byte>)
    ensures (forall e: nat :: !EndsAt(f, e)) ==> Load(f) == Failure(FormatError)
    ensures forall e: nat :: EndsAt(f, e) && (forall d: nat :: e < d ==> !EndsAt(f, d)) ==> Load(f) == Opening(f, e)
  {
    hide EndsAt, FindEocd, CheckEocd, LoadCdr, Opening;
    EndFoundExactly(f);
    if FindEocd(f).Some? { OpensAt(f, FindEocd(f).value); }
  }

  lemma OpensAt(f: seq<byte>, e: nat)
    requires EndsAt(f, e) && FindEocd(f) == Some(e)
    ensures Load(f) == Opening(f, e)
  {
    hide FindEocd, CheckEocd, LoadCdr, Section, Half, Word;
    EndIs(f, e);
    if EndVerdict(f, e) == Ok { SectionIs(f, Word(f, e + 16), Word(f, e + 12), Half(f, e + 10)); }
  }

  lemma SectionIs(f: seq<byte>, place: u32, size: u32, count: u16)
    requires place + size <= |f|
    ensures LoadCdr(f, Eocd(place, size, count)) == Section(f, place, size, count)
  {
    hide ParseCdr, CheckLfhs, Records, LocalsVerdict, AllListed, EntriesAt, Tells, AllInside;
    RecordsAre(f, place, place + size, 0, count);
    var z := Records(f, place, count, place + size);
    if z.Success? { LocalsAre(f, z.value.places, place); }
  }

  /** The tag decides before anything else is read: only a file that begins with a local header or an end record is
      taken for a ZIP file, unless the caller says that it is something else. */
  lemma TagDecides(f: seq<byte>, hint: PakFormat.Hint)
    ensures var zip := |f| >= 4 && (ZipTagged(f, 3, 4) || ZipTagged(f, 5, 6));
            && (zip && !hint.As? ==> ZipMeanings.LoadZip(f, hint) == Load(f))
            && (zip && hint.As? ==> ZipMeanings.LoadZip(f, hint) == Failure(InvalidArgument))
            && (!zip ==> ZipMeanings.LoadZip(f, hint).Failure?)
            && (|f| >= 4 && ZipTagged(f, 7, 8) ==> ZipMeanings.LoadZip(f, hint) == Failure(Unsupported))
  {
    hide Load, PakFormat.Classify;
    if |f| >= 4 { ClassifyIs(f, hint); }
  }
}
