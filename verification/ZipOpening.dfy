/** Opening a ZIP file gives a sound archive, and one that comes back unchanged from its next commit. */
module ZipOpening {
  import opened ByteStrings
  import opened Outcomes
  import opened ZipNames
  import opened ZipFormat
  import opened ZipImages
  import opened Deflate
  import opened ZipCommitting
  import opened ZipMeanings
  import opened ZipArchives
  import opened PakStates
  import opened PakCopying
  import opened Disks
  import Utf8
  import ZipLoading
  import PakFormat
  import PakLifecycle
  import PakLoading

  /** What every parsed record guarantees. */
  predicate Plausible(e: Entry) {
    && Fits(e) && (e.packing == STORED || e.packing == DEFLATED)
    && (forall b <- e.name :: !Control(b)) && !Marker(e.name, e.usize, e.csize)
    && Faithful(e) && !e.Staged()
  }

  lemma PlausibleRecord(cdr: seq<byte>, p: nat, name: seq<byte>)
    requires CheckRecord(cdr, p).Success? && !CheckRecord(cdr, p).value.directory
    requires var m := CheckRecord(cdr, p).value.meta;
             NameOf(cdr[p + CDR_SIZE..p + CDR_SIZE + m.nameLen], m.flags) == Success(name)
    ensures var r := CheckRecord(cdr, p).value;
            Plausible(Entry(name, r.meta.packing, r.meta.crc, r.meta.csize, r.meta.usize, r.lfh, 0, r.lfh, None, None))
  {
    hide ReadMeta, ReadU16, ReadU32, Utf8.WellFormed, Expand;
    var m := CheckRecord(cdr, p).value.meta;
    var raw := cdr[p + CDR_SIZE..p + CDR_SIZE + m.nameLen];
    DecodedIsWellFormed(raw, m.flags, NAME_BUFFER);
    ExpandedKeepsAscii(raw);
  }

  lemma {:induction false} PlausibleDirectory(cdr: seq<byte>, p: nat, n: nat)
    requires ParseCdr(cdr, p, n).Success?
    ensures var es := ParseCdr(cdr, p, n).value.0; |es| <= n && forall e <- es :: Plausible(e)
    decreases n
  {
    hide CheckRecord, NameOf, Plausible;
    if n > 0 {
      var rec := CheckRecord(cdr, p).value;
      PlausibleDirectory(cdr, p + rec.Length(), n - 1);
      if !rec.directory {
        PlausibleRecord(cdr, p, NameOf(cdr[p + CDR_SIZE..p + CDR_SIZE + rec.meta.nameLen], rec.meta.flags).value);
      }
    }
  }

  /** What an opened entry guarantees: it can be written again, nothing about it will be lost, and its
      payload ends before the directory. */
  predicate Good(e: Entry, cdrOffset: nat) {
    Recordable(e) && Faithful(e) && !e.Staged() && e.payload + e.csize <= cdrOffset
  }

  lemma GoodEntry(file: seq<byte>, e: Entry, cdrOffset: nat)
    requires Plausible(e) && CheckLfh(file, e, cdrOffset).Success?
    ensures Good(CheckLfh(file, e, cdrOffset).value, cdrOffset) && CheckLfh(file, e, cdrOffset).value.name == e.name
  {
    hide ReadMeta, Utf8.WellFormed, Control, Marker;
  }

  lemma {:induction false} GoodEntries(file: seq<byte>, es: seq<Entry>, cdrOffset: nat)
    requires (forall e <- es :: Plausible(e)) && CheckLfhs(file, es, cdrOffset).Success?
    ensures var r := CheckLfhs(file, es, cdrOffset).value; |r| == |es| && forall e <- r :: Good(e, cdrOffset)
    decreases |es|
  {
    hide CheckLfh, Good, Plausible;
    if es != [] {
      GoodEntry(file, es[0], cdrOffset);
      GoodEntries(file, es[1..], cdrOffset);
    }
  }

  lemma OpenedIsGood(file: seq<byte>)
    requires Load(file).Success?
    ensures var o := Load(file).value;
            && o.cdrOffset <= |file| && |o.entries| < U16_MAX && DistinctNames(o.entries)
            && forall e <- o.entries :: Good(e, o.cdrOffset)
  {
    hide Good, ParseCdr, CheckLfhs, FindEocd, ReadU16, ReadU32;
    var at := FindEocd(file).value;
    var d := CheckEocd(file, at).value;
    if d.count > 0 {
      var cdr := file[d.cdrOffset..d.cdrOffset + d.cdrSize];
      PlausibleDirectory(cdr, 0, d.count);
      GoodEntries(file, ParseCdr(cdr, 0, d.count).value.0, d.cdrOffset);
    }
  }

  /** An opened archive is sound. */
  lemma OpenedIsSound(files: Files, path: Path)
    requires path in files && Load(files[path]).Success?
    ensures var o := Load(files[path]).value;
            ZipSound(o.entries, o.cdrOffset, files, path) && forall e <- o.entries :: !e.Staged()
  {
    hide Load, Recordable, Faithful, DistinctNames;
    OpenedIsGood(files[path]);
    forall e | e in Load(files[path]).value.entries
      ensures EntrySound(e, Load(files[path]).value.cdrOffset, files, path) {
      assert Good(e, Load(files[path]).value.cdrOffset);
    }
  }

  /** Opening a file, writing its entries anew and opening the result gives the same names, methods,
      checksums, sizes and order; the new places are where the writer put the members. */
  lemma RewritingIsStable(file: seq<byte>, ms: seq<Member>)
    requires Load(file).Success? && AllFit(ms) && AllRecordable(ms) && Tiled(ms) && Addressable(ms)
    requires |ms| == |Load(file).value.entries|
    requires forall i :: 0 <= i < |ms| ==>
      ms[i].e == Load(file).value.entries[i].(lfh := ms[i].e.lfh, payload := ms[i].e.payload, offset := ms[i].e.offset)
    ensures Load(Image(ms)) == Success(Opened(RecordedEntries(ms), |Blocks(ms)|))
  {
    hide Load, Blocks, Directory, Image, AllFit, AllRecordable, Tiled, Addressable, Faithful, Recordable;
    OpenedIsGood(file);
    var es := Load(file).value.entries;
    forall m | m in ms ensures Faithful(m.e) {
      var i :| 0 <= i < |ms| && ms[i] == m;
      assert es[i] in es && Good(es[i], Load(file).value.cdrOffset);
      SameFaith(es[i], m.e);
    }
    assert forall i :: 0 <= i < |ms| ==> RecordedEntries(ms)[i].name == es[i].name;
    RoundTrip(ms);
  }

  lemma SameFaith(e: Entry, f: Entry)
    requires Faithful(e) && f.name == e.name && f.usize == e.usize
    ensures Faithful(f)
  {}

  lemma LastingEntry(files: Files, path: Path, e: Entry, end: nat)
    requires Good(e, end)
    ensures Lasting(ItemFor(files, path, e)) && |e.name| < NAME_BUFFER && e.usize <= U32_MAX
  {
    hide Utf8.WellFormed, Control, Marker;
  }

  /** A file that opens stands for what opening gives. */
  lemma OpenedMeans(files: Files, path: Path)
    requires path in files && LoadZip(files[path], PakFormat.AsZip).Success?
    ensures ZipMeans(files[path], ItemsFor(files, path, LoadZip(files[path], PakFormat.AsZip).value.entries))
  {
    hide Load, Good, Lasting, ReturnedAll, PakFormat.Classify;
    OpenedIsGood(files[path]);
    var o := Load(files[path]).value;
    var items, there := ItemsFor(files, path, o.entries), map[HERE := files[path]];
    forall i | 0 <= i < |items|
      ensures Lasting(items[i]) && |items[i].name| < NAME_BUFFER && items[i].usize <= U32_MAX
      ensures items[i] == ItemFor(there, HERE, o.entries[i])
    {
      assert Good(o.entries[i], o.cdrOffset);
      LastingEntry(files, path, o.entries[i], o.cdrOffset);
      NotStaged(o.entries[i], o.cdrOffset);
    }
    ComesBackExactly(items);
    assert ItemsFor(there, HERE, o.entries) == items;
  }

  lemma NotStaged(e: Entry, end: nat)
    requires Good(e, end)
    ensures !e.Staged()
  {}

  // ----- Opening -----

  /** Without a hint a ZIP file opens as it does when it is said to be one. */
  lemma PinnedDown(file: seq<byte>, hint: PakFormat.Hint)
    requires LoadZip(file, hint).Success?
    ensures LoadZip(file, PakFormat.AsZip) == LoadZip(file, hint) == Load(file)
  {
    hide Load;
  }

  /** Opens a ZIP file for reading or writing. */
  method OpenZip(disk: Disk, path: Path, codec: Codec, hint: PakFormat.Hint, mode: PakLifecycle.Mode)
    returns (r: Result<ZipArchive>)
    requires disk.Valid() && Lossless(codec)
    modifies disk`cursors, disk`next, disk`trouble
    ensures disk.Valid() && (old(disk.trouble) ==> disk.trouble)
    ensures r.Success? ==>
      var a := r.value;
      && a.Valid() && fresh(a) && a.disk == disk && a.path == path && path in disk.files && a.codec == codec
      && a.writable == (mode != PakLifecycle.Read) && !a.dirty && !a.deflates && a.fp.Some?
      && LoadZip(disk.files[path], hint) == Success(Opened(a.entries, a.cdrOffset)) && a.fileSize == |disk.files[path]|
      && ZipMeans(disk.files[path], a.Contents()) && a.maxDecompressed == 0x400_0000
    ensures r != Failure(Ok)
    ensures r.Failure? ==> disk.trouble || (path in disk.files && LoadZip(disk.files[path], hint) == Failure(r.status))
  {
    hide Load, ZipSound, ZipMeans, LoadZip, Lossless;
    var h := disk.Open(path);
    if h.None? { return Failure(IoError); }
    var locked := true;
    if mode != PakLifecycle.Read {
      locked := disk.Works();
    }
    var found, size := Failure(IoError), 0;
    if locked {
      found, size := LoadFile(disk, h.value, hint);
    }
    if found.Failure? {
      var _ := disk.Close(h.value);
      return Failure(found.status);
    }
    OpenedIsSound(disk.files, path);
    PinnedDown(disk.files[path], hint);
    OpenedMeans(disk.files, path);
    var a := new ZipArchive(disk, path, codec, mode != PakLifecycle.Read, found.value.entries, found.value.cdrOffset,
                            size, h.value);
    return Success(a);
  }

  /** Reads the signature and then the rest. */
  method LoadFile(disk: Disk, h: Handle, hint: PakFormat.Hint) returns (r: Result<Opened>, size: nat)
    requires disk.Valid() && disk.IsOpen(h)
    modifies disk`cursors, disk`trouble
    ensures disk.Valid() && SameHandles(old(disk.cursors), disk.cursors) && (old(disk.trouble) ==> disk.trouble)
    ensures var file := disk.files[disk.cursors[h].path];
            && r != Failure(Ok) && (r == LoadZip(file, hint) || (r.Failure? && disk.trouble))
            && (r.Success? ==> size == |file| && Load(file) == r)
  {
    hide Load, PakFormat.Classify;
    var signature;
    signature, size := PakLoading.ReadSignature(disk, h);
    if signature.None? { return Failure(IoError), size; }
    var magic := PakFormat.Classify(signature.value, hint);
    if magic.Failure? { return Failure(magic.status), size; }
    if !magic.value.Zip? { return Failure(FormatError), size; }
    r := ZipLoading.OpenFile(disk, h, size);
  }
}
