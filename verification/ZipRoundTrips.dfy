/** What goes into a ZIP archive comes out of it: before a commit, after it, and after opening the file
    again. */
module ZipRoundTrips {
  import opened ByteStrings
  import opened Outcomes
  import opened Deflate
  import opened PakStates
  import opened ZipFormat
  import opened ZipCommitting
  import opened ZipMeanings
  import opened ZipAdding
  import opened ZipLimits
  import opened ZipArchives
  import opened ZipOpening
  import opened ZipReaders
  import opened ZipClosing
  import PakFormat
  import PakLifecycle
  import opened ZipNames
  import Crc32

  /** Bytes that have just been added are read back at once. Unless a call fails, the outcome is settled by
      the arguments: the verdict on the add, and then the cap. */
  method AddAndRead(a: ZipArchive, name: seq<byte>, data: seq<byte>) returns (s: Status, got: seq<byte>)
    requires a.Valid()
    modifies a`entries, a`dirty, a.disk`cursors, a.disk`next, a.disk`trouble
    ensures a.Valid() && (old(a.disk.trouble) ==> a.disk.trouble)
    ensures s == Ok ==> got == data && Keeps(a.codec, a.Contents(), |old(a.Contents())|, data) && a.dirty
    ensures !a.disk.trouble ==>
      var verdict := AddVerdict(old(a.entries), name, |data|, a.writable && a.fp.Some?);
      s == if verdict != Ok then verdict else if 0 < a.maxDecompressed < |data| then LimitError else Ok
  {
    hide ZipArchive.Valid, Denotes, ItemOverCap, AddVerdict, Queued, ItemsFor;
    got := [];
    Openness(a, name, |data|);
    s := a.AddMemory(name, data);
    if s != Ok { return; }
    ghost var i := |a.entries| - 1;
    QueuedKept(a, name, data, i);
    ghost var before := a.disk.trouble;
    s, got := ReadBack(a, |a.entries| - 1, data);
  }

  lemma Openness(a: ZipArchive, name: seq<byte>, size: nat)
    requires a.Valid()
    ensures AddVerdict(a.entries, name, size, a.writable && a.fp.Some?) == Ok ==> a.fp.Some?
  {
    hide ZipMeans, Lossless, ZipSound, Preflight;
  }

  lemma QueuedKept(a: ZipArchive, name: seq<byte>, data: seq<byte>, i: nat)
    requires a.Valid() && i < |a.Contents()| && a.Contents()[i] == Queued(a.codec, a.deflates, name, data)
    ensures Keeps(a.codec, a.Contents(), i, data)
    ensures ItemOverCap(a.Contents()[i], a.maxDecompressed) <==> 0 < a.maxDecompressed < |data|
  {
    hide ZipMeans, ZipSound, Lossless, Denotes;
    QueuedDenotes(a.codec, a.deflates, name, data);
    QueuedPayload(a.codec, a.deflates, name, data);
  }

  /** A commit changes nothing for a reader. */
  method CommitAndRead(a: ZipArchive, i: nat, ghost data: seq<byte>) returns (s: Status, got: seq<byte>)
    requires a.Valid() && a.fp.Some? && Keeps(a.codec, a.Contents(), i, data)
    modifies a`entries, a`cdrOffset, a`fileSize, a`dirty, a`fp, a.disk
    ensures a.Valid() && (old(a.disk.trouble) ==> a.disk.trouble) && a.Contents() == old(a.Contents())
    ensures s == Ok ==> got == data && !a.dirty
    ensures !a.disk.trouble ==>
      || s == (if ItemOverCap(a.Contents()[i], a.maxDecompressed) then LimitError else Ok)
      || Unsaveable(s, old(a.disk.files), old(a.entries))
  {
    hide ZipArchive.Valid, Denotes, ItemOverCap, ItemsFor, AllOrNothing, Unsaveable, ZipMeans;
    got := [];
    DirtyIsWritable(a);
    ghost var ms, published;
    s, ms, published := a.Commit();
    if s != Ok { return; }
    s, got := ReadBack(a, i, data);
  }

  /** Neither does closing the archive and opening its file again, if its items come back unchanged; if they do
      not, and no call fails, opening says so or gives what becomes of them. */
  method ReopenAndRead(a: ZipArchive, i: nat, ghost data: seq<byte>) returns (s: Status, got: seq<byte>)
    requires a.Valid() && Keeps(a.codec, a.Contents(), i, data)
    modifies a`entries, a`cdrOffset, a`fileSize, a`dirty, a`fp, a.disk
    ensures old(a.disk.trouble) ==> a.disk.trouble
    ensures s == Ok ==> got == data
    ensures !a.disk.trouble ==>
      var items := old(a.Contents());
      || (s == InvalidArgument && old(a.dirty) && old(a.fp).None?)
      || Unsaveable(s, old(a.disk.files), old(a.entries))
      || s == (if Reread(items).Failure? then Reread(items).status
               else if ItemOverCap(items[i], 0x400_0000) then LimitError else Ok)
  {
    hide ZipArchive.Valid, ZipArchive.Contents, Denotes, ItemOverCap, Unsaveable, ZipMeans, LoadZip, Lossless, Reread;
    got := [];
    ghost var items := a.Contents();
    CodecIsLossless(a);
    ghost var e, after;
    s, e, after := CloseZip(a);
    if s != Ok { return; }
    ghost var file := a.disk.files[a.path];
    var r := OpenZip(a.disk, a.path, a.codec, PakFormat.AsZip, PakLifecycle.Read);
    if r.Failure? {
      RefusedAlike(file, items, r.status);
      return r.status, got;
    }
    BackInPlace(r.value, file, items, i, data, 0x400_0000);
    s, got := ReadBack(r.value, i, data);
  }

  lemma CodecIsLossless(a: ZipArchive)
    requires a.Valid()
    ensures Lossless(a.codec)
  {
    hide ZipMeans, ZipSound, Lossless;
  }

  /** A file that stands for the items is refused only as their rereading is. */
  lemma RefusedAlike(file: seq<byte>, items: seq<ZipItem>, s: Status)
    requires ZipMeans(file, items)
    ensures LoadZip(file, PakFormat.AsZip) == Failure(s) ==> Reread(items) == Failure(s)
  {
    hide LoadZip, Reread;
  }

  /** An item that comes back still stands for its data and is as large as it was. */
  lemma BackInPlace(b: ZipArchive, file: seq<byte>, items: seq<ZipItem>, i: nat, data: seq<byte>, cap: nat)
    requires ZipMeans(file, items) && Keeps(b.codec, items, i, data)
    requires b.path in b.disk.files && b.disk.files[b.path] == file && b.Valid() && !b.dirty
    requires LoadZip(file, PakFormat.AsZip) == Success(Opened(b.entries, b.cdrOffset))
    ensures Reread(items).Success? && Keeps(b.codec, b.Contents(), i, data)
    ensures ItemOverCap(b.Contents()[i], cap) <==> ItemOverCap(items[i], cap)
  {
    hide LoadZip, Crc32.Crc, Lossless, Returned, EntrySound;
    var back := ReturnedAll(items).value;
    SameElsewhere(b, file);
    assert b.Contents() == back;
    ReturnedAt(items, i);
  }

  lemma SameElsewhere(b: ZipArchive, file: seq<byte>)
    requires b.Valid() && !b.dirty && b.path in b.disk.files && b.disk.files[b.path] == file
    ensures ItemsFor(map[HERE := file], HERE, b.entries) == b.Contents()
  {
    hide ZipMeans, ZipSound, Lossless;
    forall k | 0 <= k < |b.entries| ensures ItemFor(map[HERE := file], HERE, b.entries[k]) == b.Contents()[k] {
      assert b.entries[k] in b.entries && !b.entries[k].Staged();
    }
  }

  lemma {:induction false} ReturnedAt(items: seq<ZipItem>, i: nat)
    requires ReturnedAll(items).Success? && i < |items|
    ensures var t := ReturnedAll(items).value[i]; t == items[i].(name := t.name)
  {
    hide NameOf, GpFlags;
    if i > 0 { ReturnedAt(items[1..], i - 1); }
  }
}
