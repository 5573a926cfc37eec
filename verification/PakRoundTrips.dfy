/** What goes into an archive comes out of it: before a commit, after it, and after opening the file
    again. */
module PakRoundTrips {
  import opened ByteStrings
  import opened Outcomes
  import opened PakFormat
  import opened PakDirectories
  import opened PakStates
  import opened PakCopying
  import opened PakArchives
  import opened PakLimits
  import opened PakReaders
  import opened PakCourses
  import opened PakLifecycle
  import opened EntryLists
  import opened Commands
  import opened Disks
  import DkCodec
  import opened PakPacking

  /** The item at this place stands for the data. */
  ghost predicate Keeps(items: seq<Item>, i: nat, data: seq<byte>) {
    i < |items| && items[i].Denotes(data)
  }

  /** The item is packed and larger than the cap allows. */
  predicate ItemOverCap(item: Item, cap: nat) {
    item.compressed && cap > 0 && (item.length > cap || |item.body| > cap)
  }

  lemma OverCapOfItem(fmt: Format, r: Row, end: nat, files: Files, path: Path, cap: nat)
    requires RowSound(fmt, r, end, files, path) && path in files && end <= |files[path]|
    ensures OverCap(r, cap) <==> ItemOverCap(ItemOf(files, path, r), cap)
  {
    hide DkCodec.Accepts;
  }

  /** An entry that stands for the data is read back through its own handle. Unless a call fails, it is
      refused exactly if it is packed and above the cap. */
  method ReadBack(a: Archive, entry: Entry, ghost i: nat, ghost data: seq<byte>) returns (s: Status, got: seq<byte>)
    requires a.Valid() && a.fp.Some? && Keeps(a.Contents(), i, data)
    requires i < |a.list.nodes| && entry == a.list.nodes[i]
    modifies a.disk`cursors, a.disk`next, a.disk`trouble
    ensures a.Valid() && (old(a.disk.trouble) ==> a.disk.trouble)
    ensures s == Ok ==> got == data
    ensures !a.disk.trouble ==> s == if ItemOverCap(a.Contents()[i], a.maxDecompressed) then LimitError else Ok
  {
    hide Archive.Valid, Delivers, OpenVerdict, EntryList.Rows, Item.Denotes, ItemOverCap, RowSound;
    ghost var row := a.list.Rows()[i];
    assert a.Contents()[i] == ItemOf(a.disk.files, a.path, row);
    EntrySound(a, i);
    EndInside(a);
    OverCapOfItem(a.format, row, a.payloadEnd, a.disk.files, a.path, a.maxDecompressed);
    SourceIsPlain(a.format, row, a.payloadEnd, a.disk.files, a.path);
    s, got := PakReaders.ReadEntry(a, entry, i);
    if s == Ok {
      DeliversDenoted(a.disk.files, a.path, row, got, data);
    }
    OnlyTheCap(s, a.disk.files, a.path, row, a.maxDecompressed, a.disk.trouble, data);
  }

  lemma EndInside(a: Archive)
    requires a.Valid()
    ensures a.path in a.disk.files && a.payloadEnd <= |a.disk.files[a.path]| && a.list.ListValid()
    ensures |a.Contents()| == |a.list.nodes|
  {
    hide Filed, Below, AnyStaged;
  }

  lemma SourceIsPlain(fmt: Format, r: Row, end: nat, files: Files, path: Path)
    requires RowSound(fmt, r, end, files, path)
    ensures r.source.Some? ==> !r.compressed
  {}

  lemma OnlyTheCap(s: Status, files: Files, path: Path, r: Row, cap: nat, trouble: bool, data: seq<byte>)
    requires OpenVerdict(s, files, path, r, cap, trouble) && ItemOf(files, path, r).Denotes(data)
    requires (r.source.Some? ==> !r.compressed)
    ensures trouble || s == if OverCap(r, cap) then LimitError else Ok
  {
    hide DkCodec.Accepts, DkCodec.Meaning;
  }

  /** Bytes that have just been added are read back at once through the new entry's handle. Unless a call
      fails, the outcome is settled by the arguments: the verdict on the add, and then the cap if the
      data is worth packing. */
  method AddAndRead(a: Archive, name: seq<byte>, data: seq<byte>) returns (s: Status, got: seq<byte>)
    requires a.Valid() && 0 !in name
    modifies a`dirty, a`needsRebuild, a`payloadEnd, a`torn, a.disk, a.list, a.list.nodes`next
    ensures a.Valid() && (old(a.disk.trouble) ==> a.disk.trouble)
    ensures s == Ok ==> got == data && Keeps(a.Contents(), |old(a.Contents())|, data) && a.dirty && a.fp.Some?
    ensures !a.disk.trouble ==>
      var verdict :=
        AddVerdict(a.format, old(a.list.Rows()), name, data, a.writable && a.fp.Some?, a.atomic, old(a.payloadEnd));
      s == if verdict != Ok then verdict
           else if WorthPacking(a.format, name, data) && 0 < a.maxDecompressed < |data| then LimitError
           else Ok
  {
    hide Archive.Valid, Item.Denotes, PakPacking.Stores, Poured, Items, Preflight, AddVerdict, WorthPacking,
      ItemOverCap, Keeps;
    got := [];
    ghost var rows, end, item, left := a.list.Rows(), a.payloadEnd, Item([], 0, false, []), [];
    s, item, left := a.AddMemory(name, data);
    if !a.disk.trouble {
      AddSettled(s, a.format, rows, name, data, a.writable && a.fp.Some?, a.atomic, end, item, false);
    }
    if s != Ok { return; }
    EndInside(a);
    ghost var i := |rows|;
    LastKept(a.Contents(), i, item, data);
    ghost var before := a.disk.trouble;
    s, got := ReadBack(a, a.list.tail, i, data);
    if !before { PackedOverCap(a.format, name, data, item, a.maxDecompressed); }
  }

  lemma LastKept(items: seq<Item>, i: nat, item: Item, data: seq<byte>)
    requires |items| == i + 1 && items[i] == item && item.Denotes(data)
    ensures Keeps(items, i, data)
  {}

  lemma PackedOverCap(fmt: Format, name: seq<byte>, data: seq<byte>, item: Item, cap: nat)
    requires PakPacking.Stores(fmt, name, data, item, false)
    ensures ItemOverCap(item, cap) <==> WorthPacking(fmt, name, data) && 0 < cap < |data|
  {
    hide DkCodec.Encode;
  }

  /** A commit changes nothing for a reader. */
  method CommitAndRead(a: Archive, index: nat, ghost data: seq<byte>) returns (s: Status, got: seq<byte>)
    requires a.Valid() && a.fp.Some? && Keeps(a.Contents(), index, data)
    modifies a, a.list.nodes`row, a.disk
    ensures a.Valid() && (old(a.disk.trouble) ==> a.disk.trouble) && a.Contents() == old(a.Contents())
    ensures s == Ok ==> got == data && a.fp.Some? && !a.dirty && (old(a.dirty || a.Intact()) ==> a.Intact())
    ensures !a.disk.trouble ==>
      || s == (if ItemOverCap(a.Contents()[index], a.maxDecompressed) then LimitError else Ok)
      || Uncommittable(s, old(a.disk.files), a.format, old(a.list.Rows()), old(a.payloadEnd), a.atomic
                       || old(a.needsRebuild))
  {
    hide Archive.Valid, Archive.Intact, Keeps, Items, Means, Reloads, Confined, Uncommittable, ItemOverCap, Moves,
      HandleKept, EntryList.Rows, EntryList.ListValid;
    got := [];
    Inside(a.Contents(), index, data);
    ghost var published;
    s, published := CommitPending(a);
    if s != Ok { return; }
    EndInside(a);
    var entry := a.list.At(index);
    s, got := ReadBack(a, entry, index, data);
  }

  lemma Inside(items: seq<Item>, i: nat, data: seq<byte>)
    requires Keeps(items, i, data)
    ensures i < |items|
  {}

  /** How opening a file that stands for the items ends when every call works. */
  ghost function Reopening(file: seq<byte>, fmt: Format, hint: Hint, items: seq<Item>): Status {
    if |items| > MAX_ENTRIES then LimitError
    else if hint.Auto? && Ambiguous(file, fmt) then FormatError
    else Ok
  }

  lemma ReopensAs(file: seq<byte>, fmt: Format, hint: Hint, items: seq<Item>)
    requires Means(file, fmt, items) && (hint == As(fmt) || (hint.Auto? && 0 < |items| <= MAX_ENTRIES))
    ensures if Reopening(file, fmt, hint, items) == Ok then
              Load(file, hint) == Load(file, As(fmt)) && Load(file, hint).Success?
            else Load(file, hint) == Failure(Reopening(file, fmt, hint, items))
  {
    hide Ambiguous, Load, Items;
    if hint.Auto? {
      NotWithoutRows(file, fmt, items);
      WithoutHint(file, fmt);
    }
  }

  lemma NotWithoutRows(file: seq<byte>, fmt: Format, items: seq<Item>)
    requires Means(file, fmt, items) && 0 < |items| <= MAX_ENTRIES
    ensures Load(file, As(fmt)).value.header.dirLength > 0
  {
    hide LoadHeader, PayloadEnd, DistinctNames, InRange, ItemOf;
  }

  /** What opening has found is what the file stands for. */
  lemma SameFormat(file: seq<byte>, hint: Hint, fmt: Format, items: seq<Item>, found: Format, rows: seq<Row>,
                   trouble: bool)
    requires Means(file, fmt, items) && (hint == As(fmt) || (hint.Auto? && 0 < |items| <= MAX_ENTRIES))
    requires OpensAs(file, hint, Ok, found, rows, trouble)
    ensures !trouble ==> Reopening(file, fmt, hint, items) == Ok && found == fmt
  {
    hide Load, Means, Reopening;
    ReopensAs(file, fmt, hint, items);
    if !trouble && Reopening(file, fmt, hint, items) == Ok { LoadedFormat(file, fmt); }
  }

  lemma LoadedFormat(file: seq<byte>, fmt: Format)
    requires Load(file, As(fmt)).Success?
    ensures Load(file, As(fmt)).value.header.format == fmt
  {
    hide LoadHeader, ParseDir, InRange, DistinctNames, PayloadEnd;
    NamedFormat(file, fmt);
  }

  /** Opens a file that stands for the items, under the name of its format or, if there are any and not too many,
      without a hint. Unless a call fails, the same items are back, except that a file that fits both layouts
      which share a signature is refused when no hint tells them apart. */
  method OpenAgain(disk: Disk, path: Path, hint: Hint, mode: Mode, ghost fmt: Format, ghost items: seq<Item>)
    returns (r: Result<Archive>)
    requires disk.Valid() && path in disk.files && Means(disk.files[path], fmt, items)
    requires hint == As(fmt) || (hint.Auto? && 0 < |items| <= MAX_ENTRIES)
    modifies disk`cursors, disk`next, disk`trouble
    ensures disk.Valid() && (old(disk.trouble) ==> disk.trouble) && r != Failure(Ok)
    ensures r.Success? ==>
      var a := r.value;
      && a.Valid() && fresh(a) && fresh(a.list) && a.disk == disk && a.path == path && a.fp.Some?
      && a.maxDecompressed == 0x400_0000
      && ((disk.trouble && hint.Auto?) || (a.format == fmt && a.Contents() == items))
    ensures !disk.trouble ==>
      (if r.Success? then Ok else r.status) == Reopening(disk.files[path], fmt, hint, items)
  {
    hide Archive.Valid, Archive.Contents, Means, Load, OpensAs, EntryList.Rows, EntryList.ListValid, Reopening;
    ghost var file := disk.files[path];
    r := OpenArchive(disk, path, hint, mode);
    ReopensAs(file, fmt, hint, items);
    if r.Success? {
      SameFormat(file, hint, fmt, items, r.value.format, r.value.list.Rows(), disk.trouble);
      if r.value.format == fmt { FewItems(file, fmt, items, r.value.Contents()); }
    }
  }

  /** Neither does closing the archive and opening its file again, which puts the cap back to its default. */
  method ReopenAndRead(a: Archive, index: nat, ghost data: seq<byte>) returns (s: Status, got: seq<byte>)
    requires a.Valid() && Keeps(a.Contents(), index, data) && (a.dirty || a.Intact())
    modifies a, a.list.nodes`row, a.disk
    ensures old(a.disk.trouble) ==> a.disk.trouble
    ensures s == Ok ==> got == data
    ensures !a.disk.trouble ==>
      var items := old(a.Contents());
      || (s == InvalidArgument && old(a.fp).None?)
      || (s == Exists && a.newPath.Some? && a.newPath.value in a.disk.files)
      || Uncommittable(s, old(a.disk.files), a.format, old(a.list.Rows()), old(a.payloadEnd), a.atomic
                       || old(a.needsRebuild))
      || s == if |items| > 1048576 || ItemOverCap(items[index], 0x400_0000) then LimitError else Ok
  {
    hide Archive.Valid, Archive.Contents, Archive.Intact, Keeps, Means, NotPublished, Items, Reloads, AnyStaged,
      Uncommittable, ItemOverCap, Moves, EntryList.Rows, EntryList.ListValid;
    got := [];
    ghost var items := a.Contents();
    Inside(items, index, data);
    var home := if a.newPath.Some? then a.newPath.value else a.path;
    ghost var e, after;
    s, e, after := CloseArchive(a);
    if s != Ok { return; }
    var r := OpenAgain(a.disk, home, As(a.format), Read, a.format, items);
    if r.Failure? { return r.status, got; }
    EndInside(r.value);
    var entry := r.value.list.At(index);
    s, got := ReadBack(r.value, entry, index, data);
  }

  lemma FewItems(file: seq<byte>, fmt: Format, items: seq<Item>, others: seq<Item>)
    requires Means(file, fmt, items) && Means(file, fmt, others) && |others| <= MAX_ENTRIES
    ensures items == others
  {
    hide Load;
    if |items| <= MAX_ENTRIES { MeansOnce(file, fmt, items, others); }
  }
}
