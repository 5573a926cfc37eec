/** What a ZIP commit leaves in the file, and that opening it undoes it. */
module ZipImages {
  import opened ByteStrings
  import opened Outcomes
  import Utf8
  import opened ZipNames
  import opened ZipFormat

  /** An entry with its payload as stored. */
  datatype Member = Member(e: Entry, body: seq<byte>)

  predicate AllFit(ms: seq<Member>) {
    forall m <- ms :: Fits(m.e) && |m.body| == m.e.csize
  }

  function Block(m: Member): (s: seq<byte>)
    requires Fits(m.e) && |m.body| == m.e.csize
    ensures |s| == m.e.Extent()
  {
    LfhBytes(m.e) + m.e.name + m.body
  }

  /** Local header, name and payload of every member, one after the other. */
  function Blocks(ms: seq<Member>): seq<byte>
    requires AllFit(ms)
  {
    if ms == [] then [] else Blocks(ms[..|ms| - 1]) + Block(ms[|ms| - 1])
  }

  function CdrEntry(e: Entry): (s: seq<byte>)
    requires Fits(e)
    ensures |s| == CDR_SIZE + |e.name|
  {
    CdrBytes(e) + e.name
  }

  /** The central directory: a record and a name for every member. */
  function Directory(ms: seq<Member>): seq<byte>
    requires AllFit(ms)
  {
    if ms == [] then [] else CdrEntry(ms[0].e) + Directory(ms[1..])
  }

  /** Every member's block starts where the one before it ends. */
  predicate Tiled(ms: seq<Member>)
    requires AllFit(ms)
  {
    ms == []
    || (Tiled(ms[..|ms| - 1]) && Located(ms[|ms| - 1].e, |Blocks(ms[..|ms| - 1])|))
  }

  predicate Located(e: Entry, at: nat) {
    e.lfh == at && e.payload == at + LFH_SIZE + |e.name| && e.offset == e.payload
  }

  /** The whole file stays within what 32-bit fields can say, and the count within 16 bits. */
  predicate Addressable(ms: seq<Member>)
    requires AllFit(ms)
  {
    |ms| <= U16_MAX && |Blocks(ms)| + |Directory(ms)| + EOCD_SIZE <= U32_MAX
  }

  function Image(ms: seq<Member>): seq<byte>
    requires AllFit(ms) && Addressable(ms)
  {
    Blocks(ms) + Directory(ms) + EocdBytes(|Blocks(ms)|, |Directory(ms)|, |ms|)
  }

  // ----- What opening will make of an entry -----

  /** What opening requires of an entry besides its numbers: a method it knows, equal sizes if stored, no
      control bytes in the name, and not the form of a directory marker. */
  predicate Recordable(e: Entry) {
    && Fits(e) && (e.packing == STORED || e.packing == DEFLATED) && (e.packing == STORED ==> e.csize == e.usize)
    && (forall b <- e.name :: !Control(b)) && !Marker(e.name, e.usize, e.csize)
  }

  predicate AllRecordable(ms: seq<Member>) {
    forall m <- ms :: Recordable(m.e) && |m.body| == m.e.csize
  }

  /** The entry as it comes back: its name decoded; an uncompressed size of all ones is taken for a
      ZIP64 mark. */
  function ReloadEntry(e: Entry): Result<Entry> {
    if e.usize == U32_MAX then Failure(Unsupported)
    else
      var name :- NameOf(e.name, GpFlags(e.name));
      Success(e.Recorded().(name := name))
  }

  function Reload(ms: seq<Member>): Result<seq<Entry>> {
    if ms == [] then Success([])
    else
      var e :- ReloadEntry(ms[0].e);
      var rest :- Reload(ms[1..]);
      Success([e] + rest)
  }

  // ----- Geometry -----

  lemma FitOne(ms: seq<Member>, i: nat)
    requires AllFit(ms) && i < |ms|
    ensures Fits(ms[i].e) && |ms[i].body| == ms[i].e.csize && AllFit(ms[..i]) && AllFit(ms[i..]) && AllFit(ms[i + 1..])
  {
    assert ms[i] in ms;
  }

  /** Each block lies in the block section at the place its predecessors leave. */
  lemma {:induction false} BlockAt(ms: seq<Member>, i: nat)
    requires AllFit(ms) && i < |ms|
    ensures Fits(ms[i].e) && |ms[i].body| == ms[i].e.csize && AllFit(ms[..i])
    ensures var at := |Blocks(ms[..i])|;
            at + ms[i].e.Extent() <= |Blocks(ms)| && Blocks(ms)[at..at + ms[i].e.Extent()] == Block(ms[i])
    decreases |ms|
  {
    hide Fits, LfhBytes;
    FitOne(ms, i);
    var init := ms[..|ms| - 1];
    if i < |ms| - 1 {
      FitOne(ms, |ms| - 1);
      BlockAt(init, i);
      assert init[..i] == ms[..i] && init[i] == ms[i];
      var at, n := |Blocks(ms[..i])|, ms[i].e.Extent();
      assert Blocks(ms)[at..at + n] == Blocks(init)[at..at + n];
    } else {
      assert ms[..i] == init;
    }
  }

  lemma {:induction false} DirectoryBound(ms: seq<Member>)
    requires AllFit(ms)
    ensures |Directory(ms)| <= 301 * |ms| && (Directory(ms) == [] <==> ms == [])
  {
    hide CdrBytes;
    if ms != [] {
      FitOne(ms, 0);
      DirectoryBound(ms[1..]);
    }
  }

  // ----- The end record is found and accepted -----

  lemma EndFound(a: seq<byte>, cdrOffset: u32, cdrSize: u32, count: u16)
    ensures FindEocd(a + EocdBytes(cdrOffset, cdrSize, count)) == Some(|a|)
  {
    hide ReadU16, ReadU32, EocdBytes;
    var end := EocdBytes(cdrOffset, cdrSize, count);
    var file := a + end;
    EocdBack(cdrOffset, cdrSize, count);
    assert file[|a|..|a| + |end|] == end;
    InsideSlice(file, |a|, end, 0, 4);
    Inside16(file, |a|, end, 20);
  }

  lemma EndAccepted(a: seq<byte>, cdrOffset: u32, cdrSize: u32, count: u16)
    requires cdrOffset + cdrSize <= |a| && cdrOffset != U32_MAX && cdrSize != U32_MAX
    ensures CheckEocd(a + EocdBytes(cdrOffset, cdrSize, count), |a|)
         == if count == U16_MAX then Failure(Unsupported) else Success(Eocd(cdrOffset, cdrSize, count))
  {
    hide ReadU16, ReadU32, EocdBytes;
    var end := EocdBytes(cdrOffset, cdrSize, count);
    var file := a + end;
    EocdBack(cdrOffset, cdrSize, count);
    assert file[|a|..|a| + |end|] == end;
    Inside16(file, |a|, end, 4);
    Inside16(file, |a|, end, 6);
    Inside16(file, |a|, end, 8);
    Inside16(file, |a|, end, 10);
    Inside32(file, |a|, end, 12);
    Inside32(file, |a|, end, 16);
  }

  // ----- The directory reads back -----

  lemma FlagsAreHarmless(name: seq<byte>)
    ensures GpFlags(name) % 2 == 0 && GpFlags(name) / 8 % 2 == 0
  {}

  lemma RecordBack(cdr: seq<byte>, p: nat, e: Entry)
    requires Recordable(e) && p + CDR_SIZE + |e.name| <= |cdr|
    requires cdr[p..p + CDR_SIZE] == CdrBytes(e) && cdr[p + CDR_SIZE..p + CDR_SIZE + |e.name|] == e.name
    requires e.csize != U32_MAX && e.lfh != U32_MAX
    ensures CheckRecord(cdr, p)
         == if e.usize == U32_MAX then Failure(Unsupported) else Success(Record(MetaOf(e), 0, e.lfh, false))
  {
    hide ReadU16, ReadU32, CdrBytes, MetaBytes, GpFlags, Marker;
    var rec := CdrBytes(e);
    CdrBack(e);
    FlagsAreHarmless(e.name);
    InsideSlice(cdr, p, rec, 0, 4);
    MetaOfRecord(cdr, p, e);
    Inside16(cdr, p, rec, 32);
    Inside32(cdr, p, rec, 38);
    Inside32(cdr, p, rec, 42);
  }

  lemma MetaOfRecord(cdr: seq<byte>, p: nat, e: Entry)
    requires Fits(e) && p + CDR_SIZE <= |cdr| && cdr[p..p + CDR_SIZE] == CdrBytes(e)
    ensures ReadMeta(cdr, p + 6) == MetaOf(e)
  {
    hide MetaBytes, GpFlags;
    InsideSlice(cdr, p, CdrBytes(e), 6, 26);
    assert CdrBytes(e)[6..32] == MetaBytes(MetaOf(e));
    MetaInside(cdr, p + 6, MetaOf(e));
  }

  /** Entries as they are before their local headers have been looked at. */
  function Parsed(es: seq<Entry>): (r: seq<Entry>)
    ensures |r| == |es|
  {
    seq(|es|, i requires 0 <= i < |es| => es[i].(payload := 0, offset := es[i].lfh))
  }

  /** Nothing in the members comes near the all-ones marks, except perhaps an uncompressed size. */
  predicate Small(ms: seq<Member>) {
    forall m <- ms :: m.e.csize < U32_MAX && m.e.lfh < U32_MAX
  }

  lemma {:induction false} DirectoryBack(cdr: seq<byte>, p: nat, ms: seq<Member>)
    requires AllRecordable(ms) && AllFit(ms) && Small(ms) && p <= |cdr| && cdr[p..] == Directory(ms)
    ensures ParseCdr(cdr, p, |ms|) == match Reload(ms)
                                      case Success(es) => Success((Parsed(es), |cdr|))
                                      case Failure(s) => Failure(s)
    decreases |ms|
  {
    hide CheckRecord, CdrBytes, GpFlags, NameOf, Control, Marker;
    if ms == [] {
      assert Parsed([]) == [];
    } else {
      var e := ms[0].e;
      var next := p + CDR_SIZE + |e.name|;
      FitOne(ms, 0);
      FirstRecord(cdr, p, ms);
      RecordBack(cdr, p, e);
      DirectoryBack(cdr, next, ms[1..]);
      if Reload(ms).Success? {
        var es := Reload(ms).value;
        assert Parsed(es) == [es[0].(payload := 0, offset := es[0].lfh)] + Parsed(es[1..]);
      }
    }
  }

  lemma FirstRecord(cdr: seq<byte>, p: nat, ms: seq<Member>)
    requires ms != [] && AllFit(ms) && p <= |cdr| && cdr[p..] == Directory(ms)
    ensures var e := ms[0].e;
            var next := p + CDR_SIZE + |e.name|;
            && Fits(e) && next <= |cdr| && AllFit(ms[1..])
            && cdr[p..p + CDR_SIZE] == CdrBytes(e) && cdr[p + CDR_SIZE..next] == e.name
                 && cdr[next..] == Directory(ms[1..])
  {
    hide CdrBytes, Fits;
    FitOne(ms, 0);
    var e := ms[0].e;
    var d := cdr[p..];
    assert d == CdrBytes(e) + e.name + Directory(ms[1..]);
    assert cdr[p..p + CDR_SIZE] == d[..CDR_SIZE];
    assert cdr[p + CDR_SIZE..p + CDR_SIZE + |e.name|] == d[CDR_SIZE..CDR_SIZE + |e.name|];
    assert cdr[p + CDR_SIZE + |e.name|..] == d[CDR_SIZE + |e.name|..];
  }

  // ----- The local headers agree -----

  /** The member's header and payload are in the file where the entry says, before `end`. */
  predicate Present(file: seq<byte>, m: Member, end: nat) {
    && Recordable(m.e) && m.e.csize == |m.body|
    && m.e.payload == m.e.lfh + LFH_SIZE + |m.e.name| && m.e.offset == m.e.payload
    && m.e.payload + m.e.csize <= end <= U32_MAX && end <= |file|
    && file[m.e.lfh..m.e.lfh + LFH_SIZE] == LfhBytes(m.e)
    && file[m.e.payload..m.e.payload + m.e.csize] == m.body
  }

  lemma HeaderBack(file: seq<byte>, m: Member, e: Entry, end: nat)
    requires Present(file, m, end) && ReloadEntry(m.e) == Success(e)
    ensures CheckLfh(file, e.(payload := 0, offset := e.lfh), end) == Success(e)
  {
    hide MetaBytes, GpFlags, NameOf, ReadU16, ReadU32, Control, Marker;
    var head := LfhBytes(m.e);
    LfhBack(m.e);
    FlagsAreHarmless(m.e.name);
    InsideSlice(file, m.e.lfh, head, 0, 4);
    InsideSlice(file, m.e.lfh, head, 4, 26);
    assert head[4..30] == MetaBytes(MetaOf(m.e));
    MetaInside(file, m.e.lfh + 4, MetaOf(m.e));
  }

  lemma {:induction false} HeadersBack(file: seq<byte>, ms: seq<Member>, es: seq<Entry>, end: nat)
    requires Reload(ms) == Success(es) && forall m <- ms :: Present(file, m, end)
    ensures CheckLfhs(file, Parsed(es), end) == Success(es)
    decreases |ms|
  {
    hide CheckLfh, ReloadEntry, Present;
    if ms == [] {
      assert Parsed([]) == [];
    } else {
      HeaderBack(file, ms[0], es[0], end);
      HeadersBack(file, ms[1..], es[1..], end);
      assert Parsed(es)[0] == es[0].(payload := 0, offset := es[0].lfh) && Parsed(es)[1..] == Parsed(es[1..]);
    }
  }

  lemma {:induction false} TiledAt(ms: seq<Member>, i: nat)
    requires AllFit(ms) && Tiled(ms) && i < |ms|
    ensures AllFit(ms[..i]) && Located(ms[i].e, |Blocks(ms[..i])|)
    decreases |ms|
  {
    hide Fits, Block, Located;
    if i < |ms| - 1 {
      TiledAt(ms[..|ms| - 1], i);
      assert ms[..|ms| - 1][..i] == ms[..i];
    }
  }

  /** In the image of tiled members every one of them is present. */
  lemma MemberPresent(ms: seq<Member>, i: nat)
    requires AllFit(ms) && AllRecordable(ms) && Tiled(ms) && Addressable(ms) && i < |ms|
    ensures Present(Image(ms), ms[i], |Blocks(ms)|) && ms[i].e.lfh < U32_MAX && ms[i].e.csize < U32_MAX
  {
    hide LfhBytes, EocdBytes, Blocks, Directory, Marker, Control, Block, Tiled;
    var m, file, end := ms[i], Image(ms), |Blocks(ms)|;
    TiledAt(ms, i);
    assert m in ms;
    BlockAt(ms, i);
    var at, n := m.e.lfh, m.e.Extent();
    var block := Block(m);
    SamePlace(Blocks(ms), Directory(ms) + EocdBytes(end, |Directory(ms)|, |ms|), file, at, n);
    BlockParts(m);
    InsideSlice(file, at, block, 0, LFH_SIZE);
    InsideSlice(file, at, block, LFH_SIZE + |m.e.name|, m.e.csize);
  }

  lemma SamePlace(a: seq<byte>, b: seq<byte>, file: seq<byte>, at: nat, n: nat)
    requires file == a + b && at + n <= |a|
    ensures file[at..at + n] == a[at..at + n]
  {}

  lemma BlockParts(m: Member)
    requires Fits(m.e) && |m.body| == m.e.csize
    ensures var b := Block(m);
            b[..LFH_SIZE] == LfhBytes(m.e) && b[LFH_SIZE + |m.e.name|..LFH_SIZE + |m.e.name| + m.e.csize] == m.body
  {
    hide LfhBytes;
  }

  // ----- Opening undoes writing -----

  /** What opening makes of the members. */
  function Reopened(ms: seq<Member>): Result<Opened>
    requires AllFit(ms)
  {
    if |ms| == U16_MAX then Failure(Unsupported)
    else
      var es :- Reload(ms);
      if !DistinctNames(es) then Failure(Duplicate) else Success(Opened(es, |Blocks(ms)|))
  }

  lemma ImageLoads(ms: seq<Member>)
    requires AllFit(ms) && AllRecordable(ms) && Tiled(ms) && Addressable(ms)
    ensures Load(Image(ms)) == Reopened(ms)
  {
    hide EocdBytes, Blocks, Directory, CheckEocd, FindEocd, Reload, DistinctNames, Tiled;
    var blocks, dir := Blocks(ms), Directory(ms);
    var a, file := blocks + dir, Image(ms);
    EndFound(a, |blocks|, |dir|, |ms|);
    EndAccepted(a, |blocks|, |dir|, |ms|);
    DirectoryBound(ms);
    assert file[|blocks|..|blocks| + |dir|] == dir;
    if |ms| != U16_MAX {
      SectionLoads(ms, file);
    }
  }

  lemma SectionLoads(ms: seq<Member>, file: seq<byte>)
    requires AllFit(ms) && AllRecordable(ms) && Tiled(ms) && Addressable(ms) && file == Image(ms) && |ms| < U16_MAX
    ensures |Blocks(ms)| + |Directory(ms)| <= |file|
    ensures LoadCdr(file, Eocd(|Blocks(ms)|, |Directory(ms)|, |ms|)) == Reload(ms)
  {
    hide EocdBytes, Blocks, Reload, Tiled, ParseCdr, CheckLfhs, Directory;
    var blocks, dir := Blocks(ms), Directory(ms);
    DirectoryBound(ms);
    NoMembers();
    assert file[|blocks|..|blocks| + |dir|] == dir && dir[0..] == dir;
    AllPresent(ms);
    if ms != [] {
      DirectoryBack(dir, 0, ms);
      if Reload(ms).Success? {
        HeadersBack(file, ms, Reload(ms).value, |blocks|);
      }
    }
  }

  lemma NoMembers()
    ensures Reload([]) == Success([])
  {}

  lemma AllPresent(ms: seq<Member>)
    requires AllFit(ms) && AllRecordable(ms) && Tiled(ms) && Addressable(ms)
    ensures Small(ms) && forall m <- ms :: Present(Image(ms), m, |Blocks(ms)|)
  {
    hide Present, Image, Blocks, Directory, Tiled, AllRecordable, AllFit;
    forall m | m in ms ensures Present(Image(ms), m, |Blocks(ms)|) && m.e.csize < U32_MAX && m.e.lfh < U32_MAX {
      var i :| 0 <= i < |ms| && ms[i] == m;
      MemberPresent(ms, i);
    }
  }

  // ----- When nothing is lost -----

  function RecordedEntries(ms: seq<Member>): (r: seq<Entry>)
    ensures |r| == |ms| && forall i :: 0 <= i < |ms| ==> r[i] == ms[i].e.Recorded()
  {
    seq(|ms|, i requires 0 <= i < |ms| => ms[i].e.Recorded())
  }

  /** The entry's name is UTF-8 and its size is not the ZIP64 mark. */
  predicate Faithful(e: Entry) {
    Utf8.WellFormed(e.name) && e.usize < U32_MAX
  }

  lemma ReloadedOne(e: Entry)
    requires Fits(e)
    ensures ReloadEntry(e) == Success(e.Recorded()) <==> Faithful(e)
    ensures ReloadEntry(e).Success? && ReloadEntry(e).value.name == e.name ==> ReloadEntry(e) == Success(e.Recorded())
  {
    hide Utf8.WellFormed, DecodeName, GpFlags;
    ComesBackIffUtf8(e.name, NAME_BUFFER);
  }

  lemma {:induction false} ReloadedAll(ms: seq<Member>)
    requires AllFit(ms)
    ensures Reload(ms) == Success(RecordedEntries(ms)) <==> forall m <- ms :: Faithful(m.e)
    decreases |ms|
  {
    hide ReloadEntry, Faithful, Fits;
    var rec := RecordedEntries(ms);
    if ms == [] {
      assert rec == [];
    } else {
      FitOne(ms, 0);
      ReloadedOne(ms[0].e);
      ReloadedAll(ms[1..]);
      assert rec == [ms[0].e.Recorded()] + RecordedEntries(ms[1..]);
      assert forall m <- ms :: m == ms[0] || m in ms[1..];
      if Reload(ms) == Success(rec) {
        var es := Reload(ms[1..]).value;
        assert ([ReloadEntry(ms[0].e).value] + es)[1..] == es && rec[1..] == RecordedEntries(ms[1..]);
      }
    }
  }

  /** Opening what was written gives the same entries, in order, exactly if there are fewer than 65535
      of them, every name is UTF-8 and no uncompressed size is the ZIP64 mark. */
  lemma RoundTrip(ms: seq<Member>)
    requires AllFit(ms) && AllRecordable(ms) && Tiled(ms) && Addressable(ms) && DistinctNames(RecordedEntries(ms))
    ensures Load(Image(ms)) == Success(Opened(RecordedEntries(ms), |Blocks(ms)|))
       <==> |ms| < U16_MAX && forall m <- ms :: Faithful(m.e)
  {
    hide Reload, Blocks, Directory, Load, Image, Faithful, DistinctNames;
    ImageLoads(ms);
    ReloadedAll(ms);
  }

  /** The writer accepts 65535 entries, the reader takes that count for the ZIP64 mark. */
  lemma FullCountIsRefused(ms: seq<Member>)
    requires AllFit(ms) && AllRecordable(ms) && Tiled(ms) && Addressable(ms) && |ms| == U16_MAX
    ensures Load(Image(ms)) == Failure(Unsupported)
  {
    hide Reload, Blocks, Directory, Load, Image;
    ImageLoads(ms);
  }

  /** A written file has one of the two signatures that mark a ZIP file. */
  lemma LooksLikeZip(ms: seq<Member>)
    requires AllFit(ms) && Addressable(ms) && Tiled(ms)
    ensures |Image(ms)| >= 4 && Image(ms)[..4] in {LFH_SIGNATURE, EOCD_SIGNATURE}
  {
    hide MetaBytes, Blocks, Directory, EocdBytes, Block;
    var blocks, dir := Blocks(ms), Directory(ms);
    var end := EocdBytes(|blocks|, |dir|, |ms|);
    DirectoryBound(ms);
    if ms == [] {
      NothingBeforeEnd();
      EocdBack(|blocks|, |dir|, |ms|);
      assert Image(ms) == end;
    } else {
      BlockAt(ms, 0);
      NothingBeforeEnd();
      assert ms[..0] == [];
      SamePlace(blocks, dir + end, Image(ms), 0, 4);
      BlockParts(ms[0]);
      assert Image(ms)[..4] == blocks[0..ms[0].e.Extent()][..LFH_SIZE][..4];
    }
  }

  lemma NothingBeforeEnd()
    ensures Blocks([]) == [] && Directory([]) == []
  {}
}
