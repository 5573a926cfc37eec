/** The pieces of a ZIP commit: what an archive stands for, copying members into a scratch file, and
    writing directory and end record behind them. */
module ZipCommitting {
  import opened ByteStrings
  import opened Outcomes
  import opened ZipFormat
  import opened ZipImages
  import opened ZipRecords
  import opened PakStates
  import opened PakCopying
  import opened Disks
  import Crc32

  // ----- Meaning and soundness -----

  /** An entry as the user sees it, with its payload as stored. */
  datatype ZipItem = ZipItem(name: seq<byte>, packing: u16, crc: u32, usize: nat, body: seq<byte>)

  function StoredBody(files: Files, path: Path, e: Entry): seq<byte> {
    match e.data
    case Some(d) => d
    case None =>
      match e.source
      case Some(src) => if src in files then files[src] else []
      case None => if path in files then Slice(files[path], e.payload, e.csize) else []
  }

  function ItemFor(files: Files, path: Path, e: Entry): ZipItem {
    ZipItem(e.name, e.packing, e.crc, e.usize, StoredBody(files, path, e))
  }

  function ItemsFor(files: Files, path: Path, entries: seq<Entry>): (s: seq<ZipItem>)
    ensures |s| == |entries| && forall i :: 0 <= i < |entries| ==> s[i] == ItemFor(files, path, entries[i])
  {
    seq(|entries|, i requires 0 <= i < |entries| => ItemFor(files, path, entries[i]))
  }

  /** A staged entry has one payload source; any other has its payload before `end`. */
  ghost predicate EntrySound(e: Entry, end: nat, files: Files, path: Path) {
    && Recordable(e)
    && !(e.source.Some? && e.data.Some?)
    && (e.data.Some? ==> |e.data.value| == e.csize)
    && (e.source.Some? ==> e.source.value in files && e.packing == STORED)
    && (!e.Staged() ==> e.payload + e.csize <= end)
  }

  ghost predicate ZipSound(entries: seq<Entry>, end: nat, files: Files, path: Path) {
    && path in files && end <= |files[path]|
    && (forall e <- entries :: EntrySound(e, end, files, path))
    && DistinctNames(entries)
  }

  lemma UnpublishedKeepsItems(entries: seq<Entry>, end: nat, files0: Files, log0: seq<Files>, files1: Files,
                              log1: seq<Files>, path: Path)
    requires ZipSound(entries, end, files0, path) && AllOrNothing(files0, log0, files1, log1, path, false)
    ensures ZipSound(entries, end, files1, path) && ItemsFor(files1, path, entries) == ItemsFor(files0, path, entries)
  {
    hide Recordable;
    forall e | e in entries
      ensures EntrySound(e, end, files1, path) && ItemFor(files1, path, e) == ItemFor(files0, path, e) {
      assert EntrySound(e, end, files0, path);
    }
  }

  /** The payload fills its recorded size, and a source file still has the checksum it had. */
  ghost predicate Unchanged(files: Files, path: Path, e: Entry) {
    && |StoredBody(files, path, e)| == e.csize
    && (e.source.Some? && e.data.None? ==> Crc32.Crc(0, StoredBody(files, path, e)) as int == e.crc)
  }

  // ----- Copying one payload -----

  /** The scratch file of a ZIP commit is written from its front. */
  const WHOLE := Target([], 0, 0)

  method CopyStaged(disk: Disk, source: Path, e: Entry, to: Handle, ghost done: seq<byte>) returns (s: Status)
    requires disk.Valid() && Holding(disk.files, disk.cursors, to, WHOLE, done)
    requires source in disk.files && source != disk.cursors[to].path
    modifies disk
    ensures disk.Valid() && SameHandles(old(disk.cursors), disk.cursors) && (old(disk.trouble) ==> disk.trouble)
    ensures Confined(old(disk.files), old(disk.log), disk.files, disk.log, disk.cursors[to].path, WHOLE.end)
    ensures var body := old(disk.files)[source];
            var same := |body| == e.csize && Crc32.Crc(0, body) as int == e.crc;
            && (s == Ok ==> same && Holding(disk.files, disk.cursors, to, WHOLE, done + body))
            && (s != Ok ==> (disk.trouble && s in {UnsafeName, IoError}) || (s == FormatError && !same))
  {
    hide Crc32.Crc, Splice, Crc32.Xor;
    ghost var body := disk.files[source];
    var noLink := disk.Works();
    if !noLink { return UnsafeName; }
    var statWorks := disk.Works();
    if !statWorks { return IoError; }
    var isRegular := disk.Works();
    if !isRegular { return UnsafeName; }
    if |disk.files[source]| != e.csize { return FormatError; }
    var src := disk.Open(source);
    if src.None? { return IoError; }
    var ok, crc := Stream(disk, src.value, e.csize, to, WHOLE, done);
    var _ := disk.Close(src.value);
    if !ok { return IoError; }
    assert Slice(body, 0, e.csize) == body;
    return if crc as int == e.crc then Ok else FormatError;
  }

  /** Copies a payload from where it is: a source file, memory, or the archive. */
  method CopyPayload(disk: Disk, path: Path, e: Entry, ghost end: nat, from: Handle, to: Handle, ghost done: seq<byte>)
    returns (s: Status)
    requires disk.Valid() && disk.IsOpen(from) && disk.cursors[from].path == path
    requires Holding(disk.files, disk.cursors, to, WHOLE, done) && disk.cursors[to].path != path
    requires EntrySound(e, end, disk.files, path) && end <= |disk.files[path]|
    requires e.source != Some(disk.cursors[to].path)
    modifies disk
    ensures disk.Valid() && SameHandles(old(disk.cursors), disk.cursors) && (old(disk.trouble) ==> disk.trouble)
    ensures Confined(old(disk.files), old(disk.log), disk.files, disk.log, disk.cursors[to].path, WHOLE.end)
    ensures s == Ok ==>
      Unchanged(old(disk.files), path, e)
        && Holding(disk.files, disk.cursors, to, WHOLE, done + StoredBody(old(disk.files), path, e))
    ensures s != Ok ==>
      (disk.trouble && s in {UnsafeName, IoError}) || (s == FormatError && !Unchanged(old(disk.files), path, e))
  {
    hide Crc32.Crc, Splice, Recordable;
    if e.source.Some? {
      s := CopyStaged(disk, e.source.value, e, to, done);
    } else if e.data.Some? {
      var ok := Append(disk, to, e.data.value, WHOLE, done);
      s := if ok then Ok else IoError;
    } else {
      var ok := disk.Seek(from, e.payload);
      if !ok { return IoError; }
      var crc;
      ok, crc := Stream(disk, from, e.csize, to, WHOLE, done);
      s := if ok then Ok else IoError;
    }
  }

  // ----- One member -----

  /** The entry with its place in the new file. */
  function PlacedAt(e: Entry, at: nat): (p: Entry)
    ensures Located(p, at) && (Recordable(e) && at <= U32_MAX ==> Recordable(p))
  {
    e.(lfh := at, payload := at + LFH_SIZE + |e.name|, offset := at + LFH_SIZE + |e.name|)
  }

  lemma SameHeader(e: Entry, at: nat)
    requires Recordable(e) && at <= U32_MAX
    ensures Fits(PlacedAt(e, at)) && LfhBytes(PlacedAt(e, at)) == LfhBytes(e)
  {}

  /** Writes header, name and payload of one entry at the end of the scratch file. */
  method WriteMember(disk: Disk, path: Path, e: Entry, ghost end: nat, from: Handle, to: Handle, ghost done: seq<byte>)
    returns (s: Status, ghost block: seq<byte>)
    requires disk.Valid() && disk.IsOpen(from) && disk.cursors[from].path == path
    requires Holding(disk.files, disk.cursors, to, WHOLE, done) && disk.cursors[to].path != path
    requires EntrySound(e, end, disk.files, path) && end <= |disk.files[path]|
    requires e.source != Some(disk.cursors[to].path)
    modifies disk
    ensures disk.Valid() && SameHandles(old(disk.cursors), disk.cursors) && (old(disk.trouble) ==> disk.trouble)
    ensures Confined(old(disk.files), old(disk.log), disk.files, disk.log, disk.cursors[to].path, WHOLE.end)
    ensures s == Ok ==>
      && Unchanged(old(disk.files), path, e) && Holding(disk.files, disk.cursors, to, WHOLE, done + block)
      && block == LfhBytes(e) + e.name + StoredBody(old(disk.files), path, e)
    ensures s != Ok ==>
      (disk.trouble && s in {UnsafeName, IoError}) || (s == FormatError && !Unchanged(old(disk.files), path, e))
  {
    hide Splice, LfhBytes, Recordable, Holding, Confined, Unchanged, StoredBody;
    EntryFits(e, end, disk.files, path);
    HoldingPath(disk.files, disk.cursors, to, done);
    ghost var f0, l0, p := disk.files, disk.log, disk.cursors[to].path;
    ghost var head := LfhBytes(e);
    block := head + e.name + StoredBody(disk.files, path, e);
    var lfh := BuildLfh(e);
    var ok := Append(disk, to, lfh[..], WHOLE, done);
    if !ok { return IoError, block; }
    ghost var f1, l1 := disk.files, disk.log;
    ok := Append(disk, to, e.name, WHOLE, done + head);
    ConfinedChains(f0, l0, f1, l1, disk.files, disk.log, p, WHOLE.end);
    if !ok { return IoError, block; }
    ghost var f2, l2 := disk.files, disk.log;
    BesideScratch(e, end, f0, l0, f2, l2, path, p);
    StillOpen(disk, f0, l0, from, to, path, done + head + e.name);
    s := CopyPayload(disk, path, e, end, from, to, done + head + e.name);
    ConfinedChains(f0, l0, f2, l2, disk.files, disk.log, p, WHOLE.end);
    assert done + head + e.name + StoredBody(f0, path, e) == done + block;
  }

  lemma EntryFits(e: Entry, end: nat, files: Files, path: Path)
    requires EntrySound(e, end, files, path)
    ensures Fits(e) && Recordable(e)
  {}

  lemma StillOpen(disk: Disk, f0: Files, l0: seq<Files>, from: Handle, to: Handle, path: Path, done: seq<byte>)
    requires from in disk.cursors && disk.cursors[from].path == path && path in f0
    requires Holding(disk.files, disk.cursors, to, WHOLE, done)
    requires Confined(f0, l0, disk.files, disk.log, disk.cursors[to].path, WHOLE.end) && disk.cursors[to].path != path
    ensures disk.IsOpen(from)
  {}

  /** Writing to the scratch file changes nothing about an entry. */
  lemma BesideScratch(e: Entry, end: nat, f0: Files, l0: seq<Files>, f1: Files, l1: seq<Files>, path: Path,
                      scratch: Path)
    requires EntrySound(e, end, f0, path) && Confined(f0, l0, f1, l1, scratch, WHOLE.end)
    requires scratch != path && e.source != Some(scratch) && path in f0 && end <= |f0[path]|
    ensures EntrySound(e, end, f1, path) && StoredBody(f1, path, e) == StoredBody(f0, path, e) && path in f1
    ensures end <= |f1[path]|
    ensures Unchanged(f1, path, e) <==> Unchanged(f0, path, e)
  {
    hide Recordable, Crc32.Crc;
  }

  // ----- Directory and end record -----

  /** Writes a record and a name for every entry, and counts the bytes. */
  method WriteDirectory(disk: Disk, entries: seq<Entry>, ghost ms: seq<Member>, to: Handle, ghost done: seq<byte>)
    returns (ok: bool, size: nat)
    requires disk.Valid() && Holding(disk.files, disk.cursors, to, WHOLE, done)
    requires AllFit(ms) && |entries| == |ms| && forall i :: 0 <= i < |ms| ==> ms[i].e == entries[i]
    modifies disk`cursors, disk`files, disk`log, disk`trouble
    ensures disk.Valid() && SameHandles(old(disk.cursors), disk.cursors) && (old(disk.trouble) ==> disk.trouble)
    ensures Confined(old(disk.files), old(disk.log), disk.files, disk.log, disk.cursors[to].path, WHOLE.end)
    ensures !ok ==> disk.trouble
    ensures ok ==> size == |Directory(ms)| && Holding(disk.files, disk.cursors, to, WHOLE, done + Directory(ms))
  {
    hide Splice, CdrBytes, Holding, Confined, Fits, AllFit, Directory;
    HoldingPath(disk.files, disk.cursors, to, done);
    ghost var p, dir, written := disk.cursors[to].path, Directory(ms), [];
    size := 0;
    ok := true;
    NothingAdded(disk.files, disk.log, p);
    assert ms[0..] == ms && done + [] == done && [] + dir == dir;
    for i := 0 to |entries|
      invariant disk.Valid() && SameHandles(old(disk.cursors), disk.cursors) && (old(disk.trouble) ==> disk.trouble)
      invariant Confined(old(disk.files), old(disk.log), disk.files, disk.log, p, WHOLE.end)
      invariant Holding(disk.files, disk.cursors, to, WHOLE, done + written) && size == |written|
      invariant AllFit(ms[i..]) && written + Directory(ms[i..]) == dir && ok
    {
      ghost var f0, l0 := disk.files, disk.log;
      NextRecord(ms, i);
      ok := WriteCdr(disk, entries[i], to, done + written);
      ConfinedChains(old(disk.files), old(disk.log), f0, l0, disk.files, disk.log, p, WHOLE.end);
      if !ok { return; }
      ghost var rec := CdrEntry(entries[i]);
      assert done + written + rec == done + (written + rec);
      assert written + rec + Directory(ms[i + 1..]) == dir;
      written := written + rec;
      size := size + CDR_SIZE + |entries[i].name|;
    }
    LastRecord(ms);
    assert written == dir;
  }

  lemma HoldingPath(files: Files, cursors: map<Handle, Cursor>, h: Handle, done: seq<byte>)
    requires Holding(files, cursors, h, WHOLE, done)
    ensures h in cursors && cursors[h].path in files
  {}

  lemma NothingAdded(files: Files, log: seq<Files>, p: Path)
    requires p in files
    ensures Confined(files, log, files, log, p, WHOLE.end)
  {}

  lemma NextRecord(ms: seq<Member>, i: nat)
    requires i < |ms| && AllFit(ms[i..])
    ensures Fits(ms[i].e) && AllFit(ms[i + 1..]) && Directory(ms[i..]) == CdrEntry(ms[i].e) + Directory(ms[i + 1..])
  {
    assert ms[i..][0] == ms[i] && ms[i..][1..] == ms[i + 1..];
  }

  lemma LastRecord(ms: seq<Member>)
    ensures AllFit(ms[|ms|..]) && Directory(ms[|ms|..]) == []
  {}

  method WriteCdr(disk: Disk, e: Entry, to: Handle, ghost done: seq<byte>) returns (ok: bool)
    requires disk.Valid() && Holding(disk.files, disk.cursors, to, WHOLE, done) && Fits(e)
    modifies disk`cursors, disk`files, disk`log, disk`trouble
    ensures disk.Valid() && SameHandles(old(disk.cursors), disk.cursors) && (old(disk.trouble) ==> disk.trouble)
    ensures Confined(old(disk.files), old(disk.log), disk.files, disk.log, disk.cursors[to].path, WHOLE.end)
    ensures !ok ==> disk.trouble
    ensures ok ==> Holding(disk.files, disk.cursors, to, WHOLE, done + CdrEntry(e))
  {
    hide Splice, CdrBytes, Holding, Confined;
    HoldingPath(disk.files, disk.cursors, to, done);
    ghost var f0, l0, p := disk.files, disk.log, disk.cursors[to].path;
    var cdr := BuildCdr(e);
    ok := Append(disk, to, cdr[..], WHOLE, done);
    if !ok { return; }
    ghost var f1, l1 := disk.files, disk.log;
    ok := Append(disk, to, e.name, WHOLE, done + CdrBytes(e));
    ConfinedChains(f0, l0, f1, l1, disk.files, disk.log, p, WHOLE.end);
    assert done + CdrBytes(e) + e.name == done + CdrEntry(e);
  }

  /** The size the whole file will have, or nothing if that is more than 32 bits can say. */
  method WholeSize(cdrOffset: nat, entries: seq<Entry>, ghost ms: seq<Member>) returns (fits: bool)
    requires AllFit(ms) && |entries| == |ms| && forall i :: 0 <= i < |ms| ==> ms[i].e == entries[i]
    requires ms == [] ==> cdrOffset + EOCD_SIZE <= U32_MAX
    ensures fits <==> cdrOffset + |Directory(ms)| + EOCD_SIZE <= U32_MAX
  {
    hide CdrBytes, Fits, AllFit, Directory;
    var total := cdrOffset + EOCD_SIZE;
    assert ms[0..] == ms;
    for i := 0 to |entries|
      invariant AllFit(ms[i..]) && total + |Directory(ms[i..])| == cdrOffset + EOCD_SIZE + |Directory(ms)|
      invariant i > 0 ==> total <= U32_MAX
    {
      NextRecord(ms, i);
      total := total + CDR_SIZE + |entries[i].name|;
      if total > U32_MAX { return false; }
    }
    LastRecord(ms);
    return true;
  }

  // ----- A layout in the making -----

  /** Only the places of the entries differ. */
  ghost predicate SameButPlaces(es: seq<Entry>, old0: seq<Entry>) {
    && |es| == |old0|
    && forall i :: 0 <= i < |es| ==>
         es[i] == old0[i].(lfh := es[i].lfh, payload := es[i].payload, offset := es[i].offset)
  }

  /** The first n entries have been written: their blocks tile the file, each with the payload the
      entry had. */
  ghost predicate Laid(ms: seq<Member>, es: seq<Entry>, old0: seq<Entry>, files0: Files, path: Path, n: nat) {
    && |ms| == n <= |es| == |old0| && AllFit(ms) && AllRecordable(ms) && Tiled(ms) && |Blocks(ms)| == Room(old0, n)
    && forall i :: 0 <= i < n ==>
         ms[i].e == es[i] && ms[i].body == StoredBody(files0, path, old0[i]) && Unchanged(files0, path, old0[i])
  }

  /** The room the first n entries take. */
  function Room(es: seq<Entry>, n: nat): nat
    requires n <= |es|
  {
    if n == 0 then 0 else Room(es, n - 1) + es[n - 1].Extent()
  }

  function DirectoryRoom(es: seq<Entry>): nat {
    if es == [] then 0 else CDR_SIZE + |es[0].name| + DirectoryRoom(es[1..])
  }

  /** A ZIP file of these entries would not fit 32-bit offsets. */
  predicate TooLarge(es: seq<Entry>) {
    Room(es, |es|) + DirectoryRoom(es) + EOCD_SIZE > U32_MAX
  }

  lemma {:induction false} RoomGrows(es: seq<Entry>, i: nat, n: nat)
    requires i <= n <= |es|
    ensures Room(es, i) <= Room(es, n)
    decreases n
  {
    if i < n { RoomGrows(es, i, n - 1); }
  }

  lemma {:induction false} DirectoryTakesRoom(ms: seq<Member>, old0: seq<Entry>)
    requires AllFit(ms) && |ms| == |old0| && forall i :: 0 <= i < |ms| ==> ms[i].e.name == old0[i].name
    ensures |Directory(ms)| == DirectoryRoom(old0)
  {
    hide CdrBytes;
    if ms != [] {
      FitOne(ms, 0);
      DirectoryTakesRoom(ms[1..], old0[1..]);
    }
  }

  lemma StartLaying(es: seq<Entry>, files0: Files, path: Path)
    ensures Laid([], es, es, files0, path, 0) && SameButPlaces(es, es)
  {}

  /** One more member keeps the tiling. */
  lemma LaidMore(ms: seq<Member>, es: seq<Entry>, old0: seq<Entry>, files0: Files, path: Path, n: nat)
    requires Laid(ms, es, old0, files0, path, n) && SameButPlaces(es, old0) && n < |es| && es[n] == old0[n]
    requires Recordable(es[n]) && Unchanged(files0, path, es[n]) && |Blocks(ms)| <= U32_MAX
    ensures var p := PlacedAt(es[n], |Blocks(ms)|);
            var m := Member(p, StoredBody(files0, path, es[n]));
            && Fits(p) && |m.body| == p.csize && AllFit(ms + [m]) && Blocks(ms + [m]) == Blocks(ms) + Block(m)
            && Laid(ms + [m], es[n := p], old0, files0, path, n + 1) && SameButPlaces(es[n := p], old0)
  {
    hide Recordable, Unchanged, StoredBody, Fits, Tiled, Blocks, Block, AllFit, AllRecordable;
    var p := PlacedAt(es[n], |Blocks(ms)|);
    UnchangedSize(files0, path, es[n]);
    RecordableFits(p);
    var m := Member(p, StoredBody(files0, path, es[n]));
    TiledMore(ms, m);
  }

  lemma TiledMore(ms: seq<Member>, m: Member)
    requires AllFit(ms) && AllRecordable(ms) && Tiled(ms) && Located(m.e, |Blocks(ms)|) && Recordable(m.e)
    requires |m.body| == m.e.csize
    ensures Fits(m.e) && AllFit(ms + [m]) && AllRecordable(ms + [m]) && Tiled(ms + [m])
    ensures Blocks(ms + [m]) == Blocks(ms) + Block(m)
  {
    hide Recordable, Fits, Block;
    RecordableFits(m.e);
    var more := ms + [m];
    assert more[..|more| - 1] == ms;
    forall x | x in more ensures Fits(x.e) && Recordable(x.e) && |x.body| == x.e.csize {}
  }

  lemma RecordableFits(e: Entry)
    requires Recordable(e)
    ensures Fits(e)
  {}

  lemma UnchangedSize(files: Files, path: Path, e: Entry)
    requires Unchanged(files, path, e)
    ensures |StoredBody(files, path, e)| == e.csize
  {}

  /** The reasons for which a ZIP commit fails by itself. */
  ghost predicate Hopeless(s: Status, files: Files, path: Path, es: seq<Entry>) {
    || (s == LimitError && (TooLarge(es) || |es| > U16_MAX))
    || (s == FormatError && exists e <- es :: !Unchanged(files, path, e))
  }

  /** What has been laid out and can be addressed was not hopeless. */
  lemma NotHopeless(ms: seq<Member>, es: seq<Entry>, old0: seq<Entry>, files0: Files, path: Path)
    requires Laid(ms, es, old0, files0, path, |old0|) && SameButPlaces(es, old0) && Addressable(ms)
    ensures !Hopeless(LimitError, files0, path, old0) && !Hopeless(FormatError, files0, path, old0)
  {
    hide Unchanged, Blocks, Directory, Tiled, AllRecordable, StoredBody;
    DirectoryTakesRoom(ms, old0);
  }

  lemma TooMuch(ms: seq<Member>, es: seq<Entry>, old0: seq<Entry>, files0: Files, path: Path, n: nat)
    requires Laid(ms, es, old0, files0, path, n) && n < |es| && es[n] == old0[n]
    requires |Blocks(ms)| + es[n].Extent() > U32_MAX
    ensures Hopeless(LimitError, files0, path, old0)
  {
    hide Unchanged;
    RoomGrows(old0, n + 1, |old0|);
  }
}
