/** A ZIP archive open for reading and writing. Every commit writes a whole new file and puts it in the
    place of the old one. */
module ZipArchives {
  import opened ByteStrings
  import opened Outcomes
  import opened ZipNames
  import opened ZipFormat
  import opened ZipImages
  import opened ZipRecords
  import opened Deflate
  import opened ZipCommitting
  import opened ZipLimits
  import opened ZipMeanings
  import opened ZipAdding
  import opened PakStates
  import opened PakCopying
  import opened PakRebuilding
  import opened Disks
  import Crc32
  import EntryNames
  import PakFormat

  function Find(es: seq<Entry>, name: seq<byte>): (i: nat)
    ensures i <= |es| && (i < |es| ==> es[i].name == name)
  {
    if es == [] || es[0].name == name then 0 else 1 + Find(es[1..], name)
  }

  /** Whether an entry may have this name: long names, unsafe names and names already taken are refused,
      in this order. */
  function Preflight(es: seq<Entry>, name: seq<byte>): (s: Status)
    ensures s in {Ok, LimitError, UnsafeName, Duplicate}
  {
    if |name| >= NAME_BUFFER then LimitError
    else if EntryNames.UnsafeName(name) then UnsafeName
    else if exists e <- es :: e.name == name then Duplicate
    else Ok
  }

  /** A name that passes can be recorded, and is not the form of a directory marker. */
  lemma PassedName(es: seq<Entry>, name: seq<byte>)
    requires Preflight(es, name) == Ok
    ensures 0 < |name| < NAME_BUFFER && (forall b <- name :: !Control(b)) && name[|name| - 1] != 0x2F
    ensures forall e <- es :: e.name != name
  {
    hide EntryNames.UnsafeName;
    EntryNames.SafeName(name);
    assert forall b <- name :: EntryNames.Control(b) <==> Control(b);
  }

  lemma AppendedIsSound(e: Entry, es: seq<Entry>, end: nat, files: Files, path: Path)
    requires ZipSound(es, end, files, path) && EntrySound(e, end, files, path) && forall q <- es :: q.name != e.name
    ensures ZipSound(es + [e], end, files, path)
    ensures ItemsFor(files, path, es + [e]) == ItemsFor(files, path, es) + [ItemFor(files, path, e)]
  {
    hide EntrySound;
  }

  /** How an add ends when every call works. */
  function AddVerdict(es: seq<Entry>, name: seq<byte>, size: nat, open: bool): Status {
    if !open then InvalidArgument
    else if Preflight(es, name) != Ok then Preflight(es, name)
    else if size > U32_MAX then LimitError
    else Ok
  }

  /** The entry an add queues: its payload in memory, or to be read from a source file by the commit. */
  function QueuedEntry(item: ZipItem, source: Option<Path>): Entry {
    Entry(item.name, item.packing, item.crc, |item.body|, item.usize, 0, 0, 0, source,
          if source.Some? then None else Some(item.body))
  }

  lemma QueuedIsSound(c: Codec, deflates: bool, name: seq<byte>, data: seq<byte>, source: Option<Path>, es: seq<Entry>,
                      end: nat, files: Files, path: Path)
    requires Lossless(c) && ZipSound(es, end, files, path) && Preflight(es, name) == Ok && |data| <= U32_MAX
    requires source.Some? ==>
      source.value in files && data == files[source.value] && (deflates ==> data == [])
    ensures var item := Queued(c, deflates, name, data);
            && ZipSound(es + [QueuedEntry(item, source)], end, files, path)
            && ItemsFor(files, path, es + [QueuedEntry(item, source)]) == ItemsFor(files, path, es) + [item]
  {
    hide ZipSound, Preflight, Queued, Crc32.Crc, Lossless;
    PassedName(es, name);
    QueuedDenotes(c, deflates, name, data);
    QueuedPayload(c, deflates, name, data);
    AppendedIsSound(QueuedEntry(Queued(c, deflates, name, data), source), es, end, files, path);
  }

  lemma QueuedPayload(c: Codec, deflates: bool, name: seq<byte>, data: seq<byte>)
    ensures var item := Queued(c, deflates, name, data);
            && item.name == name && item.usize == |data| && (item.packing == STORED || item.packing == DEFLATED)
            && (item.packing == STORED ==> item.body == data) && (!deflates || data == [] ==> item.packing == STORED)
  {}

  lemma NamedIsSound(e: Entry, name: seq<byte>, es: seq<Entry>, end: nat, files: Files, path: Path)
    requires EntrySound(e, end, files, path) && Preflight(es, name) == Ok
    ensures var f := e.(name := name);
            && EntrySound(f, end, files, path) && ItemFor(files, path, f) == ItemFor(files, path, e).(name := name)
            && EntrySound(f.(offset := 0), end, files, path)
                 && ItemFor(files, path, f.(offset := 0)) == ItemFor(files, path, f)
  {
    hide Preflight;
    PassedName(es, name);
  }

  lemma RenamedIsSound(es: seq<Entry>, i: nat, name: seq<byte>, end: nat, files: Files, path: Path)
    requires ZipSound(es, end, files, path) && i < |es| && Preflight(es, name) == Ok
    ensures var items := ItemsFor(files, path, es);
            && ZipSound(es[i := es[i].(name := name)], end, files, path)
            && ItemsFor(files, path, es[i := es[i].(name := name)]) == items[i := items[i].(name := name)]
  {
    hide EntrySound, Preflight;
    NamedIsSound(es[i], name, es, end, files, path);
    PassedName(es, name);
    var named := es[i := es[i].(name := name)];
    forall a, b | 0 <= a < b < |named| ensures named[a].name != named[b].name {
      assert es[a].name != name && es[b].name != name;
    }
  }

  lemma CopyIsSound(es: seq<Entry>, i: nat, name: seq<byte>, end: nat, files: Files, path: Path)
    requires ZipSound(es, end, files, path) && i < |es| && Preflight(es, name) == Ok
    ensures var items := ItemsFor(files, path, es);
            var e := es[i].(name := name, offset := if es[i].Staged() then 0 else es[i].offset);
            && ZipSound(es + [e], end, files, path)
            && ItemsFor(files, path, es + [e]) == items + [items[i].(name := name)]
  {
    hide EntrySound, Preflight;
    var e := es[i].(name := name, offset := if es[i].Staged() then 0 else es[i].offset);
    NamedIsSound(es[i], name, es, end, files, path);
    PassedName(es, name);
    AppendedIsSound(e, es, end, files, path);
  }

  class ZipArchive {
    const disk: Disk
    const path: Path
    const writable: bool
    const codec: Codec

    /** Whether adds try to compress, and the cap on what is unpacked; the caller may set both. */
    var deflates: bool
    var maxDecompressed: nat
    var entries: seq<Entry>
    var cdrOffset: nat
    var fileSize: nat
    var dirty: bool
    var fp: Option<Handle>

    ghost predicate Valid()
      reads this, disk`files, disk`cursors, disk`next, disk`log
    {
      && disk.Valid() && ZipSound(entries, cdrOffset, disk.files, path) && LiveHandle() && Lossless(codec)
      && ((exists e <- entries :: e.Staged()) ==> dirty) && (dirty ==> writable)
      && (!dirty ==> ZipMeans(disk.files[path], Contents()))
    }

    ghost predicate LiveHandle()
      reads this, disk`cursors
    {
      fp.Some? ==> fp.value in disk.cursors && disk.cursors[fp.value].path == path
    }

    ghost function Contents(): seq<ZipItem>
      reads this, disk`files
    {
      ItemsFor(disk.files, path, entries)
    }

    constructor (disk: Disk, path: Path, codec: Codec, writable: bool, entries: seq<Entry>, cdrOffset: nat, size: nat,
                 fp: Handle)
      requires disk.Valid() && ZipSound(entries, cdrOffset, disk.files, path) && forall e <- entries :: !e.Staged()
      requires Lossless(codec) && ZipMeans(disk.files[path], ItemsFor(disk.files, path, entries))
      requires fp in disk.cursors && disk.cursors[fp].path == path
      ensures Valid() && this.disk == disk && this.path == path && this.codec == codec && this.writable == writable
      ensures this.entries == entries && this.cdrOffset == cdrOffset && fileSize == size && !dirty
      ensures this.fp == Some(fp)
      ensures !deflates && maxDecompressed == PakFormat.DEFAULT_MAX_DECOMPRESSED
    {
      this.disk, this.path, this.codec, this.writable, this.entries, this.cdrOffset := disk, path, codec, writable,
        entries, cdrOffset;
      hide ZipMeans, Lossless, ZipSound;
      deflates, maxDecompressed, fileSize, dirty, this.fp := false, PakFormat.DEFAULT_MAX_DECOMPRESSED, size, false,
        Some(fp);
    }

    // ----- Copying the members -----

    /** Writes all members into the scratch file, giving each entry its new place as it goes. */
    method CopyMembers(to: Handle, ghost files0: Files, ghost log0: seq<Files>, ghost old0: seq<Entry>, ghost end: nat)
      returns (s: Status, cur: nat, ghost ms: seq<Member>)
      requires disk.Valid() && LiveHandle() && fp.Some? && entries == old0 && ZipSound(old0, end, files0, path)
      requires to in disk.cursors && to != fp.value && Holding(disk.files, disk.cursors, to, WHOLE, [])
      requires disk.cursors[to].path !in files0 && AllOrNothing(files0, log0, disk.files, disk.log, path, false)
      modifies this`entries, disk
      ensures disk.Valid() && SameHandles(old(disk.cursors), disk.cursors) && (old(disk.trouble) ==> disk.trouble)
      ensures AllOrNothing(files0, log0, disk.files, disk.log, path, false)
      ensures SameButPlaces(entries, old0)
      ensures s == Ok ==> AllFit(ms) && Laid(ms, entries, old0, files0, path, |old0|) && cur == |Blocks(ms)| <= U32_MAX
      ensures s == Ok ==> Holding(disk.files, disk.cursors, to, WHOLE, Blocks(ms))
      ensures s != Ok ==> (disk.trouble && s.Fault()) || Hopeless(s, files0, path, old0)
    {
      hide ZipSound, AllOrNothing, Holding, Laid, SameButPlaces, EntrySound, Hopeless, AllFit, Recordable, Unchanged,
        LfhBytes, Fits, StoredBody, Blocks, ZipMeans, Lossless;
      HoldingPath(disk.files, disk.cursors, to, []);
      NoBlocks();
      s, cur, ms := Ok, 0, [];
      ghost var scratch := disk.cursors[to].path;
      StartLaying(old0, files0, path);
      for i := 0 to |entries|
        invariant |entries| == |old0| && s == Ok
        invariant disk.Valid() && SameHandles(old(disk.cursors), disk.cursors) && (old(disk.trouble) ==> disk.trouble)
        invariant AllOrNothing(files0, log0, disk.files, disk.log, path, false)
        invariant AllFit(ms) && Laid(ms, entries, old0, files0, path, i) && SameButPlaces(entries, old0)
        invariant cur == |Blocks(ms)| <= U32_MAX
        invariant Holding(disk.files, disk.cursors, to, WHOLE, Blocks(ms))
        invariant forall k :: i <= k < |entries| ==> entries[k] == old0[k]
      {
        var e := entries[i];
        if cur + e.Extent() > U32_MAX {
          TooMuch(ms, entries, old0, files0, path, i);
          return LimitError, cur, ms;
        }
        ghost var more;
        assert e in old0;
        s, more := CopyMember(e, to, files0, log0, old0, end, Blocks(ms));
        if s != Ok { return; }
        SameHeader(e, cur);
        LaidMore(ms, entries, old0, files0, path, i);
        entries := entries[i := PlacedAt(e, cur)];
        ms := ms + [Member(PlacedAt(e, cur), StoredBody(files0, path, e))];
        cur := cur + e.Extent();
      }
    }

    /** Writes one member and keeps the scratch file apart from everything else. */
    method CopyMember(e: Entry, to: Handle, ghost files0: Files, ghost log0: seq<Files>, ghost old0: seq<Entry>,
                      ghost end: nat, ghost done: seq<byte>)
      returns (s: Status, ghost block: seq<byte>)
      requires disk.Valid() && LiveHandle() && fp.Some? && e in old0 && ZipSound(old0, end, files0, path)
      requires to != fp.value && Holding(disk.files, disk.cursors, to, WHOLE, done)
      requires disk.cursors[to].path !in files0 && AllOrNothing(files0, log0, disk.files, disk.log, path, false)
      modifies disk
      ensures disk.Valid() && SameHandles(old(disk.cursors), disk.cursors) && (old(disk.trouble) ==> disk.trouble)
      ensures AllOrNothing(files0, log0, disk.files, disk.log, path, false)
      ensures s == Ok ==>
        && Recordable(e) && Unchanged(files0, path, e) && Holding(disk.files, disk.cursors, to, WHOLE, done + block)
        && block == LfhBytes(e) + e.name + StoredBody(files0, path, e)
      ensures s != Ok ==> (disk.trouble && s.Fault()) || Hopeless(s, files0, path, old0)
    {
      hide AllOrNothing, Unchanged, Recordable, LfhBytes, Confined, ZipMeans, Lossless;
      ghost var f1, l1, scratch := disk.files, disk.log, disk.cursors[to].path;
      EntryNow(e, old0, end, files0, log0, f1, l1, path);
      s, block := WriteMember(disk, path, e, end, fp.value, to, done);
      ScratchIsHarmless(files0, log0, f1, l1, disk.files, disk.log, scratch, WHOLE.end, path);
    }

    // ----- Finishing the scratch file -----

    /** Writes directory and end record behind the members, if the whole fits. */
    method WriteEnd(t: Scratch, cur: nat, ghost ms: seq<Member>) returns (s: Status, cdrSize: nat)
      requires AllFit(ms) && disk.Valid() && Holding(disk.files, disk.cursors, t.handle, WHOLE, Blocks(ms))
      requires cur == |Blocks(ms)| <= U32_MAX
      requires |entries| == |ms| <= U16_MAX && forall i :: 0 <= i < |ms| ==> ms[i].e == entries[i]
      modifies disk`cursors, disk`files, disk`log, disk`trouble
      ensures disk.Valid() && SameHandles(old(disk.cursors), disk.cursors) && (old(disk.trouble) ==> disk.trouble)
      ensures Confined(old(disk.files), old(disk.log), disk.files, disk.log, disk.cursors[t.handle].path, WHOLE.end)
      ensures s == Ok ==>
        Addressable(ms) && cdrSize == |Directory(ms)| && Holding(disk.files, disk.cursors, t.handle, WHOLE, Image(ms))
      ensures s != Ok ==>
        (disk.trouble && s == IoError) || (s == LimitError && |Blocks(ms)| + |Directory(ms)| + EOCD_SIZE > U32_MAX)
    {
      hide AllFit, Blocks, Directory, Confined, Splice, Holding, ZipMeans, Lossless;
      HoldingPath(disk.files, disk.cursors, t.handle, Blocks(ms));
      ghost var f0, l0, p := disk.files, disk.log, disk.cursors[t.handle].path;
      NothingAdded(f0, l0, p);
      NoBlocks();
      cdrSize := 0;
      var fits := WholeSize(cur, entries, ms);
      if !fits { return LimitError, cdrSize; }
      var ok;
      ok, cdrSize := WriteDirectory(disk, entries, ms, t.handle, Blocks(ms));
      if !ok { return IoError, cdrSize; }
      ghost var f1, l1 := disk.files, disk.log;
      var eocd := BuildEocd(cur, cdrSize, |entries|);
      ok := Append(disk, t.handle, eocd[..], WHOLE, Blocks(ms) + Directory(ms));
      ConfinedChains(f0, l0, f1, l1, disk.files, disk.log, p, WHOLE.end);
      if !ok { return IoError, cdrSize; }
      var flushed := disk.Works();
      return if flushed then Ok else IoError, cdrSize;
    }

    /** Finishes the scratch file and closes it; what cannot be finished is thrown away. */
    method FinishFile(t: Scratch, cur: nat, ghost ms: seq<Member>, ghost files0: Files, ghost log0: seq<Files>,
                      ghost old0: seq<Entry>)
      returns (s: Status, cdrSize: nat)
      requires AllFit(ms) && disk.Valid() && Holding(disk.files, disk.cursors, t.handle, WHOLE, Blocks(ms))
      requires cur == |Blocks(ms)| <= U32_MAX
      requires Laid(ms, entries, old0, files0, path, |old0|) && SameButPlaces(entries, old0) && |old0| <= U16_MAX
      requires disk.cursors[t.handle].path == t.path && t.path !in files0
      requires AllOrNothing(files0, log0, disk.files, disk.log, path, false)
      modifies disk`cursors, disk`files, disk`log, disk`trouble
      ensures disk.Valid() && HandlesKept(old(disk.cursors) - {t.handle}, disk.cursors)
      ensures (old(disk.trouble) ==> disk.trouble)
      ensures AllOrNothing(files0, log0, disk.files, disk.log, path, false)
      ensures s == Ok ==>
        Addressable(ms) && cdrSize == |Directory(ms)| && t.path in disk.files && disk.files[t.path] == Image(ms)
      ensures s != Ok ==> (disk.trouble && s == IoError) || Hopeless(s, files0, path, old0)
    {
      hide AllOrNothing, Laid, SameButPlaces, Hopeless, AllFit, Blocks, Directory, Confined, Splice, Image, ZipMeans,
        Lossless;
      ghost var f1, l1 := disk.files, disk.log;
      LaidEntries(ms, entries, old0, files0, path);
      s, cdrSize := WriteEnd(t, cur, ms);
      ScratchIsHarmless(files0, log0, f1, l1, disk.files, disk.log, t.path, WHOLE.end, path);
      if s == Ok { WrittenWhole(Image(ms)); }
      var closed := disk.Close(t.handle);
      if s == Ok && !closed {
        s := IoError;
      }
      if s != Ok {
        RemoveScratch(disk, t.path, files0, log0, path);
      }
    }

    /** Closes the archive, puts the scratch file in its place and opens it again; if that fails, the old
        archive is opened again. */
    method SwapFile(t: Scratch, ghost files0: Files, ghost log0: seq<Files>) returns (renamed: bool)
      requires disk.Valid() && LiveHandle() && fp.Some? && t.path in disk.files && t.path !in files0 && path in files0
      requires AllOrNothing(files0, log0, disk.files, disk.log, path, false)
      modifies this`fp, disk
      ensures disk.Valid() && LiveHandle() && (old(disk.trouble) ==> disk.trouble)
      ensures AllOrNothing(files0, log0, disk.files, disk.log, path, renamed)
      ensures (!renamed || fp.None? ==> disk.trouble) && (renamed ==> disk.files[path] == old(disk.files)[t.path])
    {
      hide AllOrNothing, ZipMeans, Lossless;
      var closed := disk.Close(fp.value);
      fp := None;
      ghost var f1, l1 := disk.files, disk.log;
      renamed := false;
      if closed {
        renamed := disk.Rename(t.path, path);
        Renamed(files0, log0, f1, l1, disk.files, disk.log, t.path, path, renamed);
      }
      if !renamed {
        RemoveScratch(disk, t.path, files0, log0, path);
      }
      fp := disk.Open(path);
    }

    // ----- Committing -----

    /** Puts back the places the entries had. */
    method RestorePlaces(lfhs: seq<nat>, payloads: seq<nat>, offsets: seq<nat>, oldCdr: nat, ghost old0: seq<Entry>)
      requires SameButPlaces(entries, old0) && |lfhs| == |payloads| == |offsets| == |old0|
      requires forall i :: 0 <= i < |old0| ==>
        lfhs[i] == old0[i].lfh && payloads[i] == old0[i].payload && offsets[i] == old0[i].offset
      modifies this`entries, this`cdrOffset
      ensures entries == old0 && cdrOffset == oldCdr
    {
      for i := 0 to |entries|
        invariant SameButPlaces(entries, old0) && forall k :: 0 <= k < i ==> entries[k] == old0[k]
      {
        entries := entries[i := entries[i].(lfh := lfhs[i], payload := payloads[i], offset := offsets[i])];
      }
      cdrOffset := oldCdr;
    }

    /** How a commit that got to writing ends: the old archive, or the whole new one. */
    ghost predicate Ended(s: Status, published: bool, ms: seq<Member>, files0: Files, log0: seq<Files>,
                          old0: seq<Entry>, oldCdr: nat)
      reads this, disk
    {
      && Valid() && AllOrNothing(files0, log0, disk.files, disk.log, path, published)
      && Contents() == ItemsFor(files0, path, old0)
      && (!published ==> s != Ok && entries == old0 && cdrOffset == oldCdr && dirty)
      && (published ==>
            && AllFit(ms) && AllRecordable(ms) && Tiled(ms) && Addressable(ms) && |ms| == |old0|
            && disk.files[path] == Image(ms) && cdrOffset == |Blocks(ms)| && entries == RecordedEntries(ms) && !dirty
            && (forall i :: 0 <= i < |ms| ==> ms[i].body == StoredBody(files0, path, old0[i]))
            && !Hopeless(LimitError, files0, path, old0) && !Hopeless(FormatError, files0, path, old0))
      && (s == Ok ==> published && fp.Some? && fileSize == |disk.files[path]|)
      && (s != Ok && published ==> s == IoError && fp.None? && disk.trouble)
      && (s != Ok ==> (disk.trouble && s.Fault()) || Hopeless(s, files0, path, old0)) && (fp.None? ==> disk.trouble)
    }

    /** Makes the archive's file say what the archive in memory says. */
    method Commit() returns (s: Status, ghost ms: seq<Member>, published: bool)
      requires Valid()
      modifies this`entries, this`cdrOffset, this`fileSize, this`dirty, this`fp, disk
      ensures (old(disk.trouble) ==> disk.trouble)
      ensures !old(dirty) ==>
        s == Ok && !published && !dirty && Valid() && entries == old(entries) && cdrOffset == old(cdrOffset)
          && fp == old(fp) && disk.files == old(disk.files) && disk.log == old(disk.log)
      ensures old(dirty) && (!writable || old(fp).None?) ==>
        s == InvalidArgument && !published && dirty && Valid() && entries == old(entries) && cdrOffset == old(cdrOffset)
          && fp == old(fp) && disk.files == old(disk.files) && disk.log == old(disk.log)
      ensures old(dirty) && writable && old(fp).Some? ==>
        && Ended(s, published, ms, old(disk.files), old(disk.log), old(entries), old(cdrOffset))
        && Contents() == old(Contents())
        && (published ==> Load(disk.files[path]) == Reopened(ms))
        && (s == Ok || published ==> Saveable(old(disk.files), old(entries)))
        && (s != Ok ==> (disk.trouble && s.Fault()) || Unsaveable(s, old(disk.files), old(entries)))
    {
      hide ZipSound, AllOrNothing, Load, ItemsFor, ZipMeans, Lossless, Saveable, Unsaveable, Hopeless;
      ghost var files0, old0, end0 := disk.files, entries, cdrOffset;
      ms, published := [], false;
      if !dirty { return Ok, ms, published; }
      if !writable || fp.None? { return InvalidArgument, ms, published; }
      ZipPath(entries, cdrOffset, disk.files, path);
      NothingHappened(disk.files, disk.log, path);
      if |entries| > U16_MAX {
        TooMany(entries, files0, path);
        Decided(LimitError, false, old0, end0, files0, path);
        return LimitError, ms, published;
      }
      var haveMemory := disk.Works();
      if entries != [] && !haveMemory { return NoMemory, ms, published; }
      s, ms, published := Rebuild();
      if published { ImageLoads(ms); }
      Decided(s, published, old0, end0, files0, path);
    }

    /** Writes the new file and swaps it in; whatever fails before that is undone. */
    method Rebuild() returns (s: Status, ghost ms: seq<Member>, published: bool)
      requires Valid() && dirty && writable && fp.Some? && |entries| <= U16_MAX
      modifies this`entries, this`cdrOffset, this`fileSize, this`dirty, this`fp, disk
      ensures (old(disk.trouble) ==> disk.trouble)
      ensures Ended(s, published, ms, old(disk.files), old(disk.log), old(entries), old(cdrOffset))
    {
      hide ZipSound, AllOrNothing, ItemsFor, Laid, Holding, Hopeless, AllFit, Blocks, Image, Addressable, ZipMeans,
        Lossless;
      ghost var files0, log0, old0 := disk.files, disk.log, entries;
      ms, published := [], false;
      ZipPath(entries, cdrOffset, disk.files, path);
      NothingHappened(disk.files, disk.log, path);
      var oldCdr := cdrOffset;
      var lfhs, payloads, offsets := SavePlaces();
      var t;
      s, t := StartFile();
      if s != Ok {
        UnpublishedKeepsItems(old0, oldCdr, files0, log0, disk.files, disk.log, path);
        return;
      }
      var cdrSize;
      s, cdrSize, ms := FillFile(t, files0, log0, old0, oldCdr);
      if s == Ok {
        published := SwapFile(t, files0, log0);
        s := if published then Ok else IoError;
      }
      if !published {
        UnpublishedKeepsItems(old0, oldCdr, files0, log0, disk.files, disk.log, path);
        RestorePlaces(lfhs, payloads, offsets, oldCdr, old0);
        return;
      }
      s := Settle(cdrSize, ms, files0, log0, old0, oldCdr);
    }

    /** Creates the scratch file. */
    method StartFile() returns (s: Status, t: Scratch)
      requires disk.Valid() && LiveHandle() && path in disk.files
      modifies disk
      ensures disk.Valid() && LiveHandle() && (old(disk.trouble) ==> disk.trouble)
      ensures AllOrNothing(old(disk.files), old(disk.log), disk.files, disk.log, path, false)
      ensures s != Ok ==> s == IoError && disk.trouble
      ensures s == Ok ==>
        && t.path !in old(disk.files) && Some(t.handle) != fp && Holding(disk.files, disk.cursors, t.handle, WHOLE, [])
        && disk.cursors[t.handle].path == t.path
    {
      var temp := disk.CreateTemp();
      if temp.None? { return IoError, Scratch(0, path); }
      return Ok, Scratch(temp.value.0, temp.value.1);
    }

    /** Fills the scratch file and closes it. */
    method FillFile(t: Scratch, ghost files0: Files, ghost log0: seq<Files>, ghost old0: seq<Entry>, ghost end: nat)
      returns (s: Status, cdrSize: nat, ghost ms: seq<Member>)
      requires disk.Valid() && LiveHandle() && fp.Some? && entries == old0 && ZipSound(old0, end, files0, path)
      requires |old0| <= U16_MAX
      requires fp != Some(t.handle) && Holding(disk.files, disk.cursors, t.handle, WHOLE, [])
      requires disk.cursors[t.handle].path == t.path && t.path !in files0
      requires AllOrNothing(files0, log0, disk.files, disk.log, path, false)
      modifies this`entries, this`cdrOffset, disk
      ensures disk.Valid() && LiveHandle() && (old(disk.trouble) ==> disk.trouble)
      ensures AllOrNothing(files0, log0, disk.files, disk.log, path, false) && SameButPlaces(entries, old0)
      ensures s == Ok ==>
        && AllFit(ms) && Laid(ms, entries, old0, files0, path, |old0|) && Addressable(ms) && cdrOffset == |Blocks(ms)|
        && cdrSize == |Directory(ms)| && t.path in disk.files && disk.files[t.path] == Image(ms)
      ensures s != Ok ==> (disk.trouble && s.Fault()) || Hopeless(s, files0, path, old0)
    {
      hide ZipSound, AllOrNothing, Holding, Laid, SameButPlaces, Hopeless, AllFit, Blocks, Image, Addressable,
        Directory, ZipMeans, Lossless;
      HoldingPath(disk.files, disk.cursors, t.handle, []);
      cdrSize := 0;
      var cur;
      s, cur, ms := CopyMembers(t.handle, files0, log0, old0, end);
      if s != Ok {
        Abandon(disk, t.handle, t.path, files0, log0, path);
        return;
      }
      cdrOffset := cur;
      s, cdrSize := FinishFile(t, cur, ms, files0, log0, old0);
    }

    /** The new file is in place: nothing is staged any more. */
    method Settle(cdrSize: nat, ghost ms: seq<Member>, ghost files0: Files, ghost log0: seq<Files>,
                  ghost old0: seq<Entry>, ghost oldCdr: nat)
      returns (s: Status)
      requires disk.Valid() && LiveHandle() && Lossless(codec) && ZipSound(old0, oldCdr, files0, path)
      requires (fp.None? ==> disk.trouble)
      requires AllFit(ms) && Laid(ms, entries, old0, files0, path, |old0|) && SameButPlaces(entries, old0)
      requires Addressable(ms)
      requires cdrOffset == |Blocks(ms)| && cdrSize == |Directory(ms)|
      requires AllOrNothing(files0, log0, disk.files, disk.log, path, true) && disk.files[path] == Image(ms)
      modifies this`entries, this`dirty, this`fileSize
      ensures Ended(s, true, ms, files0, log0, old0, oldCdr)
    {
      hide ZipSound, AllOrNothing, ItemsFor, Laid, SameButPlaces, Hopeless, AllFit, Blocks, Image, Addressable,
        Directory, AllRecordable, Tiled, ZipMeans, Lossless;
      LaidEntries(ms, entries, old0, files0, path);
      Published(ms, entries, old0, oldCdr, files0, log0, disk.files, disk.log, path);
      PublishedSize(ms);
      ZipPath(RecordedEntries(ms), |Blocks(ms)|, disk.files, path);
      PublishedMeans(disk.files, path, ms);
      NotHopeless(ms, entries, old0, files0, path);
      DropStaged(ms);
      dirty := false;
      if fp.None? { return IoError; }
      fileSize := cdrOffset + cdrSize + EOCD_SIZE;
      return Ok;
    }

    /** Remembers the three places of every entry. */
    method SavePlaces() returns (lfhs: seq<nat>, payloads: seq<nat>, offsets: seq<nat>)
      ensures |lfhs| == |payloads| == |offsets| == |entries|
      ensures forall i :: 0 <= i < |entries| ==>
        lfhs[i] == entries[i].lfh && payloads[i] == entries[i].payload && offsets[i] == entries[i].offset
    {
      lfhs, payloads, offsets := [], [], [];
      for i := 0 to |entries|
        invariant |lfhs| == |payloads| == |offsets| == i
        invariant forall k :: 0 <= k < i ==>
          lfhs[k] == entries[k].lfh && payloads[k] == entries[k].payload && offsets[k] == entries[k].offset
      {
        lfhs, payloads, offsets := lfhs + [entries[i].lfh], payloads + [entries[i].payload],
          offsets + [entries[i].offset];
      }
    }

    /** Forgets what was staged. */
    method DropStaged(ghost ms: seq<Member>)
      requires |ms| == |entries| && forall i :: 0 <= i < |ms| ==> ms[i].e == entries[i]
      modifies this`entries
      ensures entries == RecordedEntries(ms)
    {
      for i := 0 to |entries|
        invariant |entries| == |ms| && forall k :: 0 <= k < |ms| ==> entries[k] == if k < i then ms[k].e.Recorded()
          else ms[k].e
      {
        entries := entries[i := entries[i].(source := None, data := None)];
      }
    }

    // ----- Changing entries -----

    method CheckName(name: seq<byte>) returns (s: Status)
      ensures s == Preflight(entries, name)
    {
      if |name| >= NAME_BUFFER { return LimitError; }
      var unsafe := EntryNames.IsUnsafeName(name);
      if unsafe { return UnsafeName; }
      for i := 0 to |entries|
        invariant forall k :: 0 <= k < i ==> entries[k].name != name
      {
        if entries[i].name == name { return Duplicate; }
      }
      return Ok;
    }

    /** Queues an entry holding the given bytes, compressed if that is asked for and makes them smaller. */
    method AddMemory(name: seq<byte>, data: seq<byte>) returns (s: Status)
      requires Valid()
      modifies this`entries, this`dirty, disk`trouble
      ensures Valid() && (old(disk.trouble) ==> disk.trouble)
      ensures s == Ok ==> dirty && Contents() == old(Contents()) + [Queued(codec, deflates, name, data)]
      ensures s != Ok ==> entries == old(entries) && dirty == old(dirty)
      ensures var verdict := AddVerdict(old(entries), name, |data|, writable && fp.Some?);
              s == verdict || (verdict == Ok && s in {NoMemory, FormatError} && disk.trouble)
    {
      hide Crc32.Crc, ZipSound, Recordable, ZipMeans, Queued, ItemsFor, Lossless, Preflight;
      if !writable || fp.None? { return InvalidArgument; }
      s := CheckName(name);
      if s != Ok { return; }
      if |data| > U32_MAX { return LimitError; }
      s := Hold(name, data);
    }

    /** Makes an entry of bytes in memory and links it. */
    method Hold(name: seq<byte>, data: seq<byte>) returns (s: Status)
      requires Valid() && writable && Preflight(entries, name) == Ok && |data| <= U32_MAX
      modifies this`entries, this`dirty, disk`trouble
      ensures Valid() && (old(disk.trouble) ==> disk.trouble)
      ensures if s == Ok then dirty && Contents() == old(Contents()) + [Queued(codec, deflates, name, data)]
              else s in {NoMemory, FormatError} && disk.trouble && entries == old(entries) && dirty == old(dirty)
    {
      hide Crc32.Crc, ZipSound, Recordable, ZipMeans, ItemsFor, Lossless, Preflight;
      var haveMemory := disk.Works();
      if !haveMemory { return NoMemory; }
      var encoded;
      s, encoded := Compress(disk, codec, deflates, data);
      if s != Ok { return; }
      haveMemory := disk.Works();
      if !haveMemory { return NoMemory; }
      var packing, body := if encoded.Some? then DEFLATED else STORED, if encoded.Some? then encoded.value else data;
      QueuedIsSound(codec, deflates, name, data, None, entries, cdrOffset, disk.files, path);
      Link(Entry(name, packing, Crc32.Crc(0, data) as int, |body|, |data|, 0, 0, 0, None, Some(body)));
    }

    method Link(e: Entry)
      requires disk.Valid() && LiveHandle() && Lossless(codec) && ZipSound(entries + [e], cdrOffset, disk.files, path)
      requires writable
      modifies this`entries, this`dirty
      ensures Valid() && entries == old(entries) + [e] && dirty
    {
      hide ZipMeans, Lossless, ZipSound;
      entries, dirty := entries + [e], true;
    }

    /** Queues an entry holding what the source file holds. If compression is asked for, the source is read
        at once; otherwise its path, size and checksum are remembered. */
    method AddFile(name: seq<byte>, source: Path) returns (s: Status)
      requires Valid()
      modifies this`entries, this`dirty, disk`cursors, disk`next, disk`trouble
      ensures Valid() && (old(disk.trouble) ==> disk.trouble)
      ensures s == Ok ==>
        source in disk.files && dirty
          && Contents() == old(Contents()) + [Queued(codec, deflates, name, disk.files[source])]
      ensures s != Ok ==> entries == old(entries) && dirty == old(dirty)
      ensures if AddVerdict(old(entries), name, 0, writable && fp.Some?) != Ok then
                s == AddVerdict(old(entries), name, 0, writable && fp.Some?)
              else if source !in disk.files then s in {UnsafeName, IoError}
              else
                || s == AddVerdict(old(entries), name, |disk.files[source]|, true)
                || (disk.trouble && s in {UnsafeName, IoError})
                || (disk.trouble && |disk.files[source]| <= U32_MAX && s in {NoMemory, FormatError})
    {
      hide Crc32.Crc, ZipSound, Recordable, ZipMeans, Queued, ItemsFor, Lossless, Preflight;
      if !writable || fp.None? { return InvalidArgument; }
      s := CheckName(name);
      if s != Ok { return; }
      s := CheckSource(disk, source);
      if s != Ok { return; }
      var crc, total;
      s, crc, total := ScanSource(disk, source);
      if s != Ok { return; }
      s := Queue(name, source, crc, total);
    }

    /** The rest of AddFile, once the source has been measured. */
    method Queue(name: seq<byte>, source: Path, crc: bv32, total: nat) returns (s: Status)
      requires Valid() && writable && Preflight(entries, name) == Ok && source in disk.files
      requires Measured(disk.files[source], crc, total)
      modifies this`entries, this`dirty, disk`cursors, disk`next, disk`trouble
      ensures Valid() && (old(disk.trouble) ==> disk.trouble)
      ensures if s == Ok then
                dirty && Contents() == old(Contents()) + [Queued(codec, deflates, name, disk.files[source])]
              else
                && s in {NoMemory, IoError, FormatError} && disk.trouble
                && entries == old(entries) && dirty == old(dirty)
    {
      hide Crc32.Crc, ZipSound, Recordable, ZipMeans, ItemsFor, Lossless, Preflight;
      if deflates && total > 0 {
        var data;
        s, data := Capture(disk, source, total);
        if s != Ok { return; }
        s := Hold(name, data);
        return;
      }
      var haveMemory := disk.Works();
      if !haveMemory { return NoMemory; }
      QueuedIsSound(codec, deflates, name, disk.files[source], Some(source), entries, cdrOffset, disk.files, path);
      Link(Entry(name, STORED, crc as int, total, total, 0, 0, 0, Some(source), None));
      return Ok;
    }

    /** Removes the entry of this name. */
    method Delete(name: seq<byte>) returns (s: Status)
      requires Valid()
      modifies this`entries, this`dirty
      ensures Valid()
      ensures var i := Find(old(entries), name);
              && s == (if !writable || fp.None? then InvalidArgument else if i == |old(entries)| then NotFound else Ok)
              && (s == Ok ==> dirty && entries == old(entries)[..i] + old(entries)[i + 1..]
                              && Contents() == old(Contents())[..i] + old(Contents())[i + 1..])
              && (s != Ok ==> entries == old(entries) && dirty == old(dirty))
    {
      hide EntrySound, Find, ZipMeans, Lossless;
      if !writable || fp.None? { return InvalidArgument; }
      var i := Find(entries, name);
      if i == |entries| { return NotFound; }
      dirty := true;
      entries := entries[..i] + entries[i + 1..];
      return Ok;
    }

    /** Gives the entry of this name another name; the next commit writes it everywhere. */
    method Rename(name: seq<byte>, newName: seq<byte>) returns (s: Status)
      requires Valid()
      modifies this`entries, this`dirty
      ensures Valid()
      ensures var i := Find(old(entries), name);
              && s == (if !writable || fp.None? then InvalidArgument else if i == |old(entries)| then NotFound
                       else if name == newName then Ok else Preflight(old(entries), newName))
              && (s == Ok ==>
                    Contents() == old(Contents())[i := old(Contents())[i].(name := newName)]
                    && (dirty || name == newName))
              && (s != Ok || name == newName ==> entries == old(entries) && dirty == old(dirty))
    {
      hide Find, Recordable, ZipMeans, Lossless;
      if !writable || fp.None? { return InvalidArgument; }
      var i := Find(entries, name);
      if i == |entries| { return NotFound; }
      if name == newName { return Ok; }
      s := CheckName(newName);
      if s != Ok { return; }
      RenamedIsSound(entries, i, newName, cdrOffset, disk.files, path);
      entries := entries[i := entries[i].(name := newName)];
      dirty := true;
    }

    /** Adds an entry with the content of the entry of this name; the next commit gives it its own header
        and payload. */
    method Copy(name: seq<byte>, copyName: seq<byte>) returns (s: Status)
      requires Valid()
      modifies this`entries, this`dirty, disk`trouble
      ensures Valid() && (old(disk.trouble) ==> disk.trouble)
      ensures var i := Find(old(entries), name);
              && (s == (if !writable || fp.None? then InvalidArgument else if i == |old(entries)| then NotFound
                        else Preflight(old(entries), copyName)) || (s == NoMemory && disk.trouble))
              && (s == Ok ==> dirty && Contents() == old(Contents()) + [old(Contents())[i].(name := copyName)])
              && (s != Ok ==> entries == old(entries) && dirty == old(dirty))
    {
      hide Find, Recordable, ZipSound, ZipMeans, Lossless;
      if !writable || fp.None? { return InvalidArgument; }
      var i := Find(entries, name);
      if i == |entries| { return NotFound; }
      s := CheckName(copyName);
      if s != Ok { return; }
      var haveMemory := disk.Works();
      if !haveMemory { return NoMemory; }
      var e := entries[i].(name := copyName, offset := if entries[i].Staged() then 0 else entries[i].offset);
      CopyIsSound(entries, i, copyName, cdrOffset, disk.files, path);
      entries := entries + [e];
      dirty := true;
    }
  }

  lemma TooMany(es: seq<Entry>, files: Files, path: Path)
    requires |es| > U16_MAX
    ensures Hopeless(LimitError, files, path, es)
  {}

  /** A commit that nothing disturbs succeeds exactly if there is room and no source has changed. */
  lemma Decided(s: Status, published: bool, es: seq<Entry>, end: nat, files: Files, path: Path)
    requires ZipSound(es, end, files, path)
    requires published ==> !Hopeless(LimitError, files, path, es) && !Hopeless(FormatError, files, path, es)
    ensures published ==> Saveable(files, es)
    ensures Hopeless(s, files, path, es) <==> Unsaveable(s, files, es)
  {
    hide Hopeless, ZipSound, Genuine, HasRoom;
    HopelessExactly(es, end, files, path);
  }

  lemma ZipPath(es: seq<Entry>, end: nat, files: Files, path: Path)
    requires ZipSound(es, end, files, path)
    ensures path in files && end <= |files[path]|
  {}

  lemma PublishedSize(ms: seq<Member>)
    requires AllFit(ms) && Addressable(ms)
    ensures |Image(ms)| == |Blocks(ms)| + |Directory(ms)| + EOCD_SIZE
  {}

  /** In the new file every entry is sound and stands for what it stood for. */
  lemma Published(ms: seq<Member>, es: seq<Entry>, old0: seq<Entry>, end0: nat, files0: Files, log0: seq<Files>,
                  files1: Files, log1: seq<Files>, path: Path)
    requires ZipSound(old0, end0, files0, path) && AllOrNothing(files0, log0, files1, log1, path, true)
    requires AllFit(ms) && Laid(ms, es, old0, files0, path, |old0|) && SameButPlaces(es, old0) && Addressable(ms)
    requires files1[path] == Image(ms)
    ensures ZipSound(RecordedEntries(ms), |Blocks(ms)|, files1, path) && AllRecordable(ms) && Tiled(ms)
    ensures ItemsFor(files1, path, RecordedEntries(ms)) == ItemsFor(files0, path, old0)
    ensures |ms| == |old0| && forall i :: 0 <= i < |ms| ==> ms[i].body == StoredBody(files0, path, old0[i])
    ensures forall e <- RecordedEntries(ms) :: !e.Staged()
  {
    hide Image, Blocks, Directory, Tiled, AllFit, Recordable, StoredBody, Addressable, LfhBytes, Fits;
    var rec := RecordedEntries(ms);
    PublishedSize(ms);
    forall i | 0 <= i < |ms|
      ensures EntrySound(rec[i], |Blocks(ms)|, files1, path)
      ensures ItemFor(files1, path, rec[i]) == ItemFor(files0, path, old0[i])
    {
      MemberPresent(ms, i);
      PresentEntry(files1, path, ms[i], |Blocks(ms)|);
    }
    assert forall i :: 0 <= i < |rec| ==> rec[i].name == old0[i].name;
  }

  lemma PublishedMeans(files: Files, path: Path, ms: seq<Member>)
    requires AllFit(ms) && AllRecordable(ms) && Tiled(ms) && Addressable(ms) && path in files
    requires files[path] == Image(ms)
    ensures ZipMeans(files[path], ItemsFor(files, path, RecordedEntries(ms)))
  {
    hide Image, Blocks, Directory, Tiled, AllFit, AllRecordable, Addressable, LfhBytes, Fits, ZipMeans;
    var rec := RecordedEntries(ms);
    ImageMeans(ms);
    forall i | 0 <= i < |ms| ensures ItemFor(files, path, rec[i]) == MemberItem(ms[i]) {
      MemberPresent(ms, i);
      PresentEntry(files, path, ms[i], |Blocks(ms)|);
    }
    assert ItemsFor(files, path, rec) == MemberItems(ms);
  }

  lemma PresentEntry(files: Files, path: Path, m: Member, end: nat)
    requires path in files && Present(files[path], m, end)
    ensures EntrySound(m.e.Recorded(), end, files, path) && StoredBody(files, path, m.e.Recorded()) == m.body
  {
    hide LfhBytes;
  }

  lemma NoBlocks()
    ensures Blocks([]) == []
  {}

  lemma LaidEntries(ms: seq<Member>, es: seq<Entry>, old0: seq<Entry>, files0: Files, path: Path)
    requires Laid(ms, es, old0, files0, path, |old0|)
    ensures |ms| == |es| == |old0| && forall i :: 0 <= i < |ms| ==> ms[i].e == es[i]
    ensures AllFit(ms) && AllRecordable(ms) && Tiled(ms)
    ensures SameButPlaces(es, old0) && |Blocks(ms)| + |Directory(ms)| + EOCD_SIZE > U32_MAX ==>
      Hopeless(LimitError, files0, path, old0)
  {
    hide Blocks, Directory, Unchanged;
    if SameButPlaces(es, old0) {
      DirectoryTakesRoom(ms, old0);
    }
  }

  lemma WrittenWhole(image: seq<byte>)
    ensures Splice([], 0, image) == image
  {}

  /** An entry means the same as long as nothing is published. */
  lemma EntryNow(e: Entry, old0: seq<Entry>, end: nat, files0: Files, log0: seq<Files>, f1: Files, l1: seq<Files>,
                 path: Path)
    requires e in old0 && ZipSound(old0, end, files0, path) && AllOrNothing(files0, log0, f1, l1, path, false)
    ensures EntrySound(e, end, f1, path) && path in files0 && path in f1 && end <= |f1[path]| && Recordable(e)
    ensures e.source.Some? ==> e.source.value in files0
    ensures StoredBody(f1, path, e) == StoredBody(files0, path, e)
    ensures (Unchanged(f1, path, e) <==> Unchanged(files0, path, e))
  {
    hide Recordable, Crc32.Crc;
    assert EntrySound(e, end, files0, path);
  }
}
