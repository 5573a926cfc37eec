/** A PAK-class archive open for reading or writing: its entry list, the layout caches, the flags that
    say what a commit has to do, and the operations on it. */
module PakArchives {
  import opened ByteStrings
  import opened Outcomes
  import opened PakFormat
  import opened PakDirectories
  import opened PakSharing
  import opened PakStates
  import opened PakCopying
  import opened PakWriting
  import opened PakLayouts
  import opened PakRebuilding
  import opened PakLimits
  import opened EntryLists
  import opened Disks
  import EntryNames
  import PakPacking
  import DkCodec
  import Crc32

  /** Whether the format can take an entry of this name: long names, unsafe names and, except in a
      WAD, names already taken are refused, in this order. */
  function Preflight(fmt: Format, rows: seq<Row>, name: seq<byte>): (s: Status)
    ensures s in {Ok, LimitError, UnsafeName, Duplicate}
  {
    if (if fmt.Wad() then |name| > fmt.NameLen() else |name| >= fmt.NameLen()) then LimitError
    else if EntryNames.UnsafeName(name) then UnsafeName
    else if !fmt.Wad() && IndexOf(rows, name) < |rows| then Duplicate
    else Ok
  }

  /** How an add ends when every call works; `open` says that the archive can be written to. */
  function AddVerdict(fmt: Format, rows: seq<Row>, name: seq<byte>, data: seq<byte>, open: bool, atomic: bool,
                      end: nat): Status
  {
    if !open then InvalidArgument
    else if Preflight(fmt, rows, name) != Ok then Preflight(fmt, rows, name)
    else if |data| > U32_MAX || (!atomic && end + |PakPacking.Stored(fmt, name, data)| > U32_MAX) then LimitError
    else Ok
  }

  /** How an add ends whatever calls fail: as it would without, with a fault, or without room for a payload that
      could not be packed. */
  predicate AddEnds(s: Status, fmt: Format, rows: seq<Row>, name: seq<byte>, data: seq<byte>, open: bool, atomic: bool,
                    end: nat, trouble: bool)
  {
    || s == AddVerdict(fmt, rows, name, data, open, atomic, end)
    || (trouble && (s.Fault() || (s == LimitError && !atomic && end + |data| > U32_MAX)))
  }

  /** The contract of an add leaves only that; nothing but the verdict if nothing has disturbed it. */
  lemma AddSettled(s: Status, fmt: Format, rows: seq<Row>, name: seq<byte>, data: seq<byte>, open: bool, atomic: bool,
                   end: nat, item: Item, trouble: bool)
    requires !open ==> s == InvalidArgument
    requires open ==>
      var pre := Preflight(fmt, rows, name);
      if pre != Ok then s == pre
      else if |data| > U32_MAX then s == LimitError
      else
        && PakPacking.Stores(fmt, name, data, item, trouble)
        && s in {Ok, IoError, NoMemory, LimitError} && (s in {IoError, NoMemory} ==> trouble)
        && (s == LimitError <==> !atomic && end + |item.body| > U32_MAX)
    ensures AddEnds(s, fmt, rows, name, data, open, atomic, end, trouble)
    ensures !trouble && s == Ok ==>
      && item.body == PakPacking.Stored(fmt, name, data)
      && (item.compressed <==> PakPacking.WorthPacking(fmt, name, data))
  {
    hide Preflight, DkCodec.Encode, DkCodec.WorstCase, EntryNames.Compressible;
  }

  /** How adding a file can end: only trouble keeps a payload that fits from being added. */
  ghost predicate FileVerdict(s: Status, fmt: Format, atomic: bool, content: seq<byte>, name: seq<byte>, item: Item,
                              end: nat, trouble: bool)
  {
    if |content| > U32_MAX then s == LimitError || (trouble && s in {UnsafeName, IoError})
    else
      && (s in {Ok, LimitError} ==> PakPacking.Stores(fmt, name, content, item, trouble))
      && (s == LimitError ==> !atomic && end + |item.body| > U32_MAX)
      && (s == Ok && !atomic ==> end + |item.body| <= U32_MAX)
      && (s !in {Ok, LimitError} ==> trouble && s in {UnsafeName, IoError, NoMemory})
  }

  lemma NotOpened(s: Status, fmt: Format, atomic: bool, content: seq<byte>, name: seq<byte>, item: Item, end: nat,
                  trouble: bool)
    requires if s == LimitError then |content| > U32_MAX else trouble && s in {UnsafeName, IoError}
    ensures FileVerdict(s, fmt, atomic, content, name, item, end, trouble)
  {}

  lemma VerdictLater(s: Status, fmt: Format, atomic: bool, content: seq<byte>, name: seq<byte>, item: Item, end: nat,
                     trouble: bool, later: bool)
    requires FileVerdict(s, fmt, atomic, content, name, item, end, trouble) && (trouble ==> later)
    ensures FileVerdict(s, fmt, atomic, content, name, item, end, later)
  {
    hide PakPacking.Stores;
    if s in {Ok, LimitError} && |content| <= U32_MAX {
      PakPacking.StoresLater(fmt, name, content, item, trouble, later);
    }
  }

  /** Payloads of this name and size are candidates for packing. */
  predicate WouldPack(fmt: Format, name: seq<byte>, size: nat) {
    fmt.Daikatana? && size > 0 && EntryNames.Compressible(name) && DkCodec.WorstCase(size) <= U32_MAX
  }

  lemma WorthNeeds(fmt: Format, name: seq<byte>, content: seq<byte>)
    ensures PakPacking.WorthPacking(fmt, name, content) ==> WouldPack(fmt, name, |content|)
  {
    hide DkCodec.Encode, DkCodec.WorstCase, EntryNames.Compressible;
  }

  class Archive {
    const disk: Disk
    const list: EntryList

    /** Where the archive lives: the opened path, or the temporary file of one being created. */
    const path: Path
    const format: Format
    const writable: bool

    /** The name an archive being created gets when it is closed. */
    const newPath: Option<Path>

    /** Commits replace the file as a whole; adds wait for the commit. */
    const atomic: bool

    /** No payload reaches past this. */
    var payloadEnd: nat
    var dirOffset: nat
    var dirLength: nat
    var fileSize: nat
    var dirty: bool
    var needsRebuild: bool
    var fp: Option<Handle>
    var maxDecompressed: nat

    /** A failed add or in-place commit has written behind the payloads, and no commit has succeeded since. */
    ghost var torn: bool

    ghost predicate Valid()
      reads this, disk`files, disk`cursors, disk`next, disk`log, list, list.nodes
    {
      && list.ListValid() && disk.Valid()
      && Sound(format, list.Rows(), payloadEnd, disk.files, path)
      && (fp.Some? ==> fp.value in disk.cursors && disk.cursors[fp.value].path == path)
      && (AnyStaged(list.Rows()) ==> needsRebuild && atomic)
      && (needsRebuild ==> dirty) && (dirty ==> writable) && (torn ==> !atomic)
      && (!dirty && Intact() ==> Filed(disk.files[path], format, list.Rows(), dirOffset, dirLength))
    }

    /** The directory in the file is as it was written: nothing has been written behind the payloads since,
        or the directory does not lie there. */
    ghost predicate Intact()
      reads this, list, list.nodes
    {
      !torn || Below(list.Rows(), dirOffset, dirLength, payloadEnd)
    }

    /** What the archive stands for: its entries in order. */
    ghost function Contents(): seq<Item>
      reads this, disk`files, list, list.nodes
    {
      Items(disk.files, path, list.Rows())
    }

    /** The archive has gained this item at its end. */
    twostate predicate Added(item: Item)
      reads this, disk, list, list.nodes
    {
      && Contents() == old(Contents()) + [item] && dirty
      && |list.nodes| == |old(list.nodes)| + 1 && list.nodes[..|old(list.nodes)|] == old(list.nodes)
      && fresh(list.nodes[|old(list.nodes)|])
    }

    /** The archive, and what a commit has to do, is as it was. */
    twostate predicate Unchanged()
      reads this, disk, list, list.nodes
    {
      && Contents() == old(Contents()) && list.Rows() == old(list.Rows()) && list.nodes == old(list.nodes)
      && payloadEnd == old(payloadEnd) && dirty == old(dirty) && needsRebuild == old(needsRebuild)
    }

    constructor (disk: Disk, list: EntryList, path: Path, newPath: Option<Path>, format: Format, writable: bool,
                 atomic: bool, payloadEnd: nat,
                 dirOffset: nat, dirLength: nat, fileSize: nat, fp: Handle, maxDecompressed: nat)
      requires list.ListValid() && disk.Valid() && !AnyStaged(list.Rows())
      requires Sound(format, list.Rows(), payloadEnd, disk.files, path)
      requires Filed(disk.files[path], format, list.Rows(), dirOffset, dirLength)
      requires fp in disk.cursors && disk.cursors[fp].path == path
      ensures Valid() && this.disk == disk && this.list == list && this.path == path && this.format == format
      ensures this.newPath == newPath
      ensures this.writable == writable && this.atomic == atomic && this.payloadEnd == payloadEnd && this.fp == Some(fp)
      ensures this.dirOffset == dirOffset && this.dirLength == dirLength && this.fileSize == fileSize
      ensures !dirty && !torn && !needsRebuild && this.maxDecompressed == maxDecompressed
    {
      hide Sound, Filed, AnyStaged;
      this.disk, this.list, this.path, this.newPath, this.format := disk, list, path, newPath, format;
      this.writable, this.atomic, this.payloadEnd, this.fp := writable, atomic, payloadEnd, Some(fp);
      this.dirOffset, this.dirLength, this.fileSize := dirOffset, dirLength, fileSize;
      this.maxDecompressed := maxDecompressed;
      dirty, needsRebuild, torn := false, false, false;
    }

    // ----- Adding -----

    method CheckName(name: seq<byte>) returns (s: Status)
      requires list.ListValid()
      ensures s == Preflight(format, list.Rows(), name)
    {
      if if format.Wad() then |name| > format.NameLen() else |name| >= format.NameLen() {
        return LimitError;
      }
      var unsafe := EntryNames.IsUnsafeName(name);
      if unsafe {
        return UnsafeName;
      }
      if !format.Wad() {
        var entry, _ := list.Find(name);
        if entry != null {
          return Duplicate;
        }
      }
      return Ok;
    }

    /** Appends an entry and marks the archive as changed. */
    method LinkRow(row: Row, rebuild: bool)
      requires list.ListValid()
      modifies this`dirty, this`needsRebuild, list, list.nodes`next
      ensures list.ListValid() && list.Rows() == old(list.Rows()) + [row]
      ensures |list.nodes| == |old(list.nodes)| + 1 && list.nodes[..|old(list.nodes)|] == old(list.nodes)
      ensures fresh(list.nodes[|old(list.nodes)|])
      ensures dirty && needsRebuild == (old(needsRebuild) || rebuild)
    {
      hide EntryList.ListValid;
      var entry := new Entry(row);
      list.Link(entry);
      dirty := true;
      if rebuild {
        needsRebuild := true;
      }
    }

    lemma NamesFree(name: seq<byte>)
      requires list.ListValid() && Preflight(format, list.Rows(), name) == Ok
      ensures |name| <= format.NameLen() && (format.Wad() || forall q <- list.Rows() :: q.name != name)
    {}

    /** Links an entry whose payload waits for the commit. The live file is not touched. */
    method Stage(row: Row)
      requires Valid() && atomic && writable && Preflight(format, list.Rows(), row.name) == Ok
      requires row.Staged() && RowSound(format, row, payloadEnd, disk.files, path)
      modifies this`dirty, this`needsRebuild, list, list.nodes`next
      ensures Valid() && Contents() == old(Contents()) + [ItemOf(disk.files, path, row)]
      ensures list.Rows() == old(list.Rows()) + [row] && dirty && needsRebuild
      ensures |list.nodes| == |old(list.nodes)| + 1 && list.nodes[..|old(list.nodes)|] == old(list.nodes)
      ensures fresh(list.nodes[|old(list.nodes)|])
    {
      hide Sound, Reloads, Filed, Below, AnyStaged, RowSound, EntryList.ListValid, Row.Staged;
      NamesFree(row.name);
      SoundEnd(format, list.Rows(), payloadEnd, disk.files, path);
      SoundAfterAppend(format, list.Rows(), payloadEnd, row, payloadEnd, disk.files, path);
      LinkRow(row, true);
    }

    /** Puts bytes behind the last payload; `left` is what is there when the write has failed. */
    method WritePayload(body: seq<byte>) returns (ok: bool, ghost left: seq<byte>)
      requires Valid() && fp.Some?
      modifies disk`cursors, disk`files, disk`log, disk`trouble
      ensures disk.Valid() && SameHandles(old(disk.cursors), disk.cursors) && (old(disk.trouble) ==> disk.trouble)
      ensures Poured(old(disk.files), old(disk.log), disk.files, disk.log, path, payloadEnd, body, left)
      ensures if ok then left == body else disk.trouble
    {
      hide Sound, Filed, AnyStaged, Splice, EntryList.ListValid, Poured, Filled, Confined;
      SoundEnd(format, list.Rows(), payloadEnd, disk.files, path);
      NothingPoured(disk.files, disk.log, path, payloadEnd, body);
      left := [];
      ok := disk.Seek(fp.value, payloadEnd);
      if ok && body != [] {
        ghost var files0, t := disk.files, Target(disk.files[path], payloadEnd, payloadEnd);
        ok := Append(disk, fp.value, body, t, []);
        assert [] + body == body;
        left := FilledIsPoured(files0, old(disk.log), disk.files, disk.log, path, payloadEnd, body);
      }
    }

    /** Links an entry whose payload has just been put behind the last one. */
    method LinkWritten(row: Row, ghost files0: Files)
      requires list.ListValid() && disk.Valid() && writable && !atomic && !AnyStaged(list.Rows())
      requires Sound(format, list.Rows(), payloadEnd, files0, path) && Beyond(files0, disk.files, path, payloadEnd)
      requires fp.Some? && fp.value in disk.cursors && disk.cursors[fp.value].path == path && (needsRebuild ==> dirty)
      requires Preflight(format, list.Rows(), row.name) == Ok && 0 !in row.name
      requires !row.Staged() && row.offset == payloadEnd && row.End() <= Min(U32_MAX, |disk.files[path]|)
      requires row.length <= U32_MAX
      requires if row.compressed then format.Compresses() else row.packed == 0
      modifies this`dirty, this`needsRebuild, this`payloadEnd, list, list.nodes`next
      ensures Valid() && list.Rows() == old(list.Rows()) + [row]
      ensures Contents() == Items(files0, path, old(list.Rows())) + [ItemOf(disk.files, path, row)]
      ensures payloadEnd == row.End() && dirty && needsRebuild == old(needsRebuild)
      ensures |list.nodes| == |old(list.nodes)| + 1 && list.nodes[..|old(list.nodes)|] == old(list.nodes)
      ensures fresh(list.nodes[|old(list.nodes)|])
    {
      hide Sound, Reloads, Filed, Below, AnyStaged, EntryList.ListValid, Row.Staged;
      NamesFree(row.name);
      SoundEnd(format, list.Rows(), payloadEnd, files0, path);
      BeyondKeepsItems(format, list.Rows(), payloadEnd, files0, disk.files, path);
      WrittenRowSound(format, row, disk.files, path);
      SoundAfterAppend(format, list.Rows(), payloadEnd, row, row.End(), disk.files, path);
      LinkRow(row, false);
      payloadEnd := row.End();
    }

    /** Adds the payload as it is to be stored: waiting in atomic mode, behind the last one otherwise. */
    method AddBody(name: seq<byte>, length: u32, body: seq<byte>, compressed: bool)
      returns (s: Status, ghost left: seq<byte>)
      requires Valid() && writable && fp.Some? && 0 !in name && Preflight(format, list.Rows(), name) == Ok
      requires |body| <= U32_MAX && if compressed then format.Compresses() && DkCodec.Accepts(body, length)
        else |body| == length
      modifies this`dirty, this`needsRebuild, this`payloadEnd, this`torn, disk`files, disk`cursors, disk`log,
        disk`trouble, list, list.nodes`next
      ensures Valid() && SameHandles(old(disk.cursors), disk.cursors) && (old(disk.trouble) ==> disk.trouble)
      ensures Poured(old(disk.files), old(disk.log), disk.files, disk.log, path, old(payloadEnd), body, left)
      ensures if s == Ok then !atomic ==> left == body else left != [] ==> s == IoError
      ensures torn == (old(torn) || (s != Ok && left != []))
      ensures s == Ok ==> payloadEnd == old(payloadEnd) + |left| && needsRebuild == (atomic || old(needsRebuild))
      ensures atomic ==> left == [] && disk.files == old(disk.files) && disk.log == old(disk.log)
      ensures s == Ok ==> Added(Item(name, length, compressed, body))
      ensures s != Ok ==> Unchanged()
      ensures s in {Ok, IoError, NoMemory, LimitError} && (s in {IoError, NoMemory} ==> disk.trouble)
      ensures s == LimitError <==> !atomic && old(payloadEnd) + |body| > U32_MAX
    {
      hide Sound, Reloads, Filed, Below, EntryList.ListValid, AnyStaged, RowSound, Preflight, Beyond, Items, Poured;
      SoundEnd(format, list.Rows(), payloadEnd, disk.files, path);
      NothingPoured(disk.files, disk.log, path, payloadEnd, body);
      left := [];
      if !atomic && payloadEnd > U32_MAX - |body| { return LimitError, left; }
      var haveMemory := disk.Works();
      if !haveMemory { return NoMemory, left; }
      if atomic {
        var row := Row(name, 0, length, if compressed then |body| else 0, compressed, 0, None, Some(body));
        NamesFree(name);
        StagedRowSound(format, row, payloadEnd, disk.files, path);
        Stage(row);
        s := Ok;
      } else {
        s, left := AppendBody(name, length, body, compressed);
      }
    }

    /** Puts the payload behind the last one and links its entry. */
    method AppendBody(name: seq<byte>, length: u32, body: seq<byte>, compressed: bool)
      returns (s: Status, ghost left: seq<byte>)
      requires Valid() && writable && !atomic && fp.Some? && 0 !in name && Preflight(format, list.Rows(), name) == Ok
      requires payloadEnd + |body| <= U32_MAX && if compressed then format.Compresses() else |body| == length
      modifies this`dirty, this`needsRebuild, this`payloadEnd, this`torn, disk`files, disk`cursors, disk`log,
        disk`trouble, list, list.nodes`next
      ensures Valid() && SameHandles(old(disk.cursors), disk.cursors) && (old(disk.trouble) ==> disk.trouble)
      ensures Poured(old(disk.files), old(disk.log), disk.files, disk.log, path, old(payloadEnd), body, left)
      ensures if s == Ok then !atomic ==> left == body else left != [] ==> s == IoError
      ensures torn == (old(torn) || (s != Ok && left != []))
      ensures s == Ok ==> payloadEnd == old(payloadEnd) + |left| && needsRebuild == (atomic || old(needsRebuild))
      ensures s == Ok ==> Added(Item(name, length, compressed, body))
      ensures s != Ok ==> s == IoError && disk.trouble && Unchanged()
    {
      hide Sound, Reloads, Filed, Below, EntryList.ListValid, AnyStaged, RowSound, Preflight, Beyond, ItemOf, Items,
        Poured, Splice;
      var packed := if compressed then |body| else 0;
      ghost var files0, end := disk.files, payloadEnd;
      SoundEnd(format, list.Rows(), payloadEnd, disk.files, path);
      var ok;
      ok, left := WritePayload(body);
      PouredMeans(files0, old(disk.log), disk.files, disk.log, path, end, body, left);
      BeyondKeepsItems(format, list.Rows(), payloadEnd, files0, disk.files, path);
      if !ok {
        Spill(files0, left);
        return IoError, left;
      }
      var row := Row(name, payloadEnd, length, packed, compressed, 0, None, None);
      WrittenItem(disk.files, path, row, body);
      LinkWritten(row, files0);
      return Ok, left;
    }

    /** Bytes have been left behind the payloads by an add that failed. */
    method Spill(ghost files0: Files, ghost left: seq<byte>)
      requires list.ListValid() && disk.Valid() && !atomic && !AnyStaged(list.Rows()) && LiveHandle()
      requires (needsRebuild ==> dirty) && (dirty ==> writable)
      requires Sound(format, list.Rows(), payloadEnd, disk.files, path) && path in files0
      requires HEADER_SIZE <= payloadEnd <= |files0[path]|
      requires disk.files[path] == Splice(files0[path], payloadEnd, left)
      requires !dirty && Intact() ==> Filed(files0[path], format, list.Rows(), dirOffset, dirLength)
      modifies this`torn
      ensures Valid() && torn == (old(torn) || left != [])
    {
      hide Sound, Filed, EntryList.ListValid, AnyStaged, Splice;
      torn := torn || left != [];
      if !dirty && Below(list.Rows(), dirOffset, dirLength, payloadEnd) {
        FiledStays(files0[path], format, list.Rows(), dirOffset, dirLength, payloadEnd, left);
      }
    }

    /** Adds an entry holding the given bytes. `left` is what is behind the payloads afterwards: the stored
        payload, or a first part of it if the add has failed. */
    method AddMemory(name: seq<byte>, data: seq<byte>) returns (s: Status, ghost item: Item, ghost left: seq<byte>)
      requires Valid() && 0 !in name
      modifies this`dirty, this`needsRebuild, this`payloadEnd, this`torn, disk`files, disk`cursors, disk`log,
        disk`trouble, list, list.nodes`next
      ensures Valid() && SameHandles(old(disk.cursors), disk.cursors) && (old(disk.trouble) ==> disk.trouble)
      ensures Poured(old(disk.files), old(disk.log), disk.files, disk.log, path, old(payloadEnd), item.body, left)
      ensures if s == Ok then !atomic ==> left == item.body else left != [] ==> s == IoError
      ensures torn == (old(torn) || (s != Ok && left != []))
      ensures s == Ok ==> payloadEnd == old(payloadEnd) + |left| && needsRebuild == (atomic || old(needsRebuild))
      ensures atomic ==> left == [] && disk.files == old(disk.files) && disk.log == old(disk.log)
      ensures s == Ok ==> Added(item) && item.name == name && item.Denotes(data)
      ensures s != Ok ==> Unchanged()
      ensures !writable || fp.None? ==> s == InvalidArgument
      ensures writable && fp.Some? ==>
        var pre := Preflight(format, old(list.Rows()), name);
        if pre != Ok then s == pre
        else if |data| > U32_MAX then s == LimitError
        else
          && PakPacking.Stores(format, name, data, item, disk.trouble)
          && s in {Ok, IoError, NoMemory, LimitError} && (s in {IoError, NoMemory} ==> disk.trouble)
          && (s == LimitError <==> !atomic && old(payloadEnd) + |item.body| > U32_MAX)
    {
      hide Sound, Reloads, Filed, Below, EntryList.ListValid, AnyStaged, EntryNames.UnsafeName, Beyond, Item.Denotes,
        PakPacking.Stores, Preflight, Items, Poured;
      SoundEnd(format, list.Rows(), payloadEnd, disk.files, path);
      item, left := Item(name, 0, false, []), [];
      NothingPoured(disk.files, disk.log, path, payloadEnd, item.body);
      if !writable || fp.None? {
        return InvalidArgument, item, left;
      }
      s := CheckName(name);
      if s != Ok {
        return;
      }
      if |data| > U32_MAX {
        return LimitError, item, left;
      }
      s, item, left := AddPacked(name, data);
    }

    /** Packs the data if it is worth it, and adds what comes of it. */
    method AddPacked(name: seq<byte>, data: seq<byte>) returns (s: Status, ghost item: Item, ghost left: seq<byte>)
      requires Valid() && writable && fp.Some? && 0 !in name && Preflight(format, list.Rows(), name) == Ok
      requires |data| <= U32_MAX
      modifies this`dirty, this`needsRebuild, this`payloadEnd, this`torn, disk`files, disk`cursors, disk`log,
        disk`trouble, list, list.nodes`next
      ensures Valid() && SameHandles(old(disk.cursors), disk.cursors) && (old(disk.trouble) ==> disk.trouble)
      ensures Poured(old(disk.files), old(disk.log), disk.files, disk.log, path, old(payloadEnd), item.body, left)
      ensures if s == Ok then !atomic ==> left == item.body else left != [] ==> s == IoError
      ensures torn == (old(torn) || (s != Ok && left != []))
      ensures s == Ok ==> payloadEnd == old(payloadEnd) + |left| && needsRebuild == (atomic || old(needsRebuild))
      ensures atomic ==> left == [] && disk.files == old(disk.files) && disk.log == old(disk.log)
      ensures s == Ok ==> Added(item) && item.name == name && item.Denotes(data)
      ensures s != Ok ==> Unchanged()
      ensures PakPacking.Stores(format, name, data, item, disk.trouble)
      ensures s in {Ok, IoError, NoMemory, LimitError} && (s in {IoError, NoMemory} ==> disk.trouble)
      ensures s == LimitError <==> !atomic && old(payloadEnd) + |item.body| > U32_MAX
    {
      hide Sound, Reloads, Filed, Below, EntryList.ListValid, AnyStaged, Beyond, Item.Denotes, PakPacking.WorthPacking,
        PakPacking.Stores, Preflight, Items, Poured;
      var body, packed, starved := PakPacking.Pack(disk, format, name, data);
      item := Item(name, |data|, packed, body);
      PakPacking.PackStores(format, name, data, body, packed, starved, disk.trouble);
      PakPacking.PackedMeansData(format, name, data, item, disk.trouble);
      ghost var before := disk.trouble;
      s, left := AddBody(name, |data|, body, packed);
      PakPacking.StoresLater(format, name, data, item, before, disk.trouble);
    }

    /** Streams the source behind the last payload and links its entry. */
    method AppendStream(name: seq<byte>, src: Handle, size: u32) returns (s: Status, ghost left: seq<byte>)
      requires Valid() && writable && !atomic && fp.Some? && 0 !in name && Preflight(format, list.Rows(), name) == Ok
      requires disk.IsOpen(src) && src != fp.value && disk.cursors[src].path != path && disk.cursors[src].pos == 0
      requires size == |disk.files[disk.cursors[src].path]| && payloadEnd + size <= U32_MAX
      modifies this`dirty, this`needsRebuild, this`payloadEnd, this`torn, disk`files, disk`cursors, disk`log,
        disk`trouble, list, list.nodes`next
      ensures Valid() && SameHandles(old(disk.cursors), disk.cursors) && (old(disk.trouble) ==> disk.trouble)
      ensures Poured(old(disk.files), old(disk.log), disk.files, disk.log, path, old(payloadEnd),
                     old(disk.files[disk.cursors[src].path]), left)
      ensures if s == Ok then !atomic ==> left == old(disk.files[disk.cursors[src].path])
        else left != [] ==> s == IoError
      ensures torn == (old(torn) || (s != Ok && left != []))
      ensures s == Ok ==> payloadEnd == old(payloadEnd) + |left| && needsRebuild == (atomic || old(needsRebuild))
      ensures s == Ok ==> Added(Item(name, size, false, old(disk.files[disk.cursors[src].path])))
      ensures s != Ok ==> s in {IoError, NoMemory} && disk.trouble && Unchanged()
    {
      hide Sound, Reloads, Filed, Below, EntryList.ListValid, AnyStaged, RowSound, Preflight, Beyond, ItemOf, Items,
        Poured, Splice;
      ghost var files0, end, data := disk.files, payloadEnd, disk.files[disk.cursors[src].path];
      SoundEnd(format, list.Rows(), payloadEnd, disk.files, path);
      var ok, haveBuffer;
      ok, haveBuffer, left := WriteStream(src, size);
      PouredMeans(files0, old(disk.log), disk.files, disk.log, path, end, data, left);
      BeyondKeepsItems(format, list.Rows(), payloadEnd, files0, disk.files, path);
      if !ok {
        Spill(files0, left);
        return if haveBuffer then IoError else NoMemory, left;
      }
      var row := Row(name, payloadEnd, size, 0, false, 0, None, None);
      WrittenItem(disk.files, path, row, data);
      LinkWritten(row, files0);
      return Ok, left;
    }

    /** Copies the source, chunk by chunk, behind the last payload. */
    method WriteStream(src: Handle, size: nat) returns (ok: bool, haveBuffer: bool, ghost left: seq<byte>)
      requires Valid() && fp.Some?
      requires disk.IsOpen(src) && src != fp.value && disk.cursors[src].path != path && disk.cursors[src].pos == 0
      requires size == |disk.files[disk.cursors[src].path]|
      modifies disk`cursors, disk`files, disk`log, disk`trouble
      ensures disk.Valid() && SameHandles(old(disk.cursors), disk.cursors) && (old(disk.trouble) ==> disk.trouble)
      ensures var data := old(disk.files[disk.cursors[src].path]);
              && Poured(old(disk.files), old(disk.log), disk.files, disk.log, path, payloadEnd, data, left)
              && if ok then left == data else disk.trouble && (haveBuffer || left == [])
    {
      hide Sound, Filed, AnyStaged, Splice, EntryList.ListValid, Crc32.Crc, Poured, Filled, Confined;
      SoundEnd(format, list.Rows(), payloadEnd, disk.files, path);
      ghost var data := disk.files[disk.cursors[src].path];
      NothingPoured(disk.files, disk.log, path, payloadEnd, data);
      left := [];
      haveBuffer := disk.Works();
      if !haveBuffer { return false, haveBuffer, left; }
      ok := disk.Seek(fp.value, payloadEnd);
      if !ok { return; }
      if size > 0 {
        haveBuffer := disk.Works();
        if !haveBuffer { return false, haveBuffer, left; }
        ghost var files0, t := disk.files, Target(disk.files[path], payloadEnd, payloadEnd);
        var crc;
        ok, crc := Stream(disk, src, size, fp.value, t, []);
        assert Slice(data, 0, size) == data == Available(data, 0, size) && [] + data == data;
        left := FilledIsPoured(files0, old(disk.log), disk.files, disk.log, path, payloadEnd, data);
      }
    }

    /** Adds an entry holding what the source file holds. A source that is packed, or stored although
        it was a candidate for packing, is read at once; any other is streamed, or in atomic mode
        remembered by its path, its size and its checksum. */
    method AddFile(name: seq<byte>, source: Path) returns (s: Status, ghost item: Item, ghost left: seq<byte>)
      requires Valid() && 0 !in name && source != path
      modifies this`dirty, this`needsRebuild, this`payloadEnd, this`torn, disk, list, list.nodes`next
      ensures Valid() && SameHandles(old(disk.cursors), disk.cursors) && (old(disk.trouble) ==> disk.trouble)
      ensures Poured(old(disk.files), old(disk.log), disk.files, disk.log, path, old(payloadEnd), item.body, left)
      ensures if s == Ok then !atomic ==> left == item.body else left != [] ==> s == IoError
      ensures torn == (old(torn) || (s != Ok && left != []))
      ensures s == Ok ==> payloadEnd == old(payloadEnd) + |left| && needsRebuild == (atomic || old(needsRebuild))
      ensures atomic ==> left == [] && disk.files == old(disk.files) && disk.log == old(disk.log)
      ensures s == Ok ==>
        source in old(disk.files) && item.Denotes(old(disk.files)[source]) && Added(item) && item.name == name
      ensures s != Ok ==> Unchanged()
      ensures !writable || fp.None? ==> s == InvalidArgument
      ensures writable && fp.Some? ==>
        var pre := Preflight(format, old(list.Rows()), name);
        if pre != Ok then s == pre
        else if source !in old(disk.files) then s in {UnsafeName, IoError}
        else FileVerdict(s, format, atomic, old(disk.files)[source], name, item, old(payloadEnd), disk.trouble)
    {
      hide Sound, Reloads, Filed, Below, EntryList.ListValid, AnyStaged, Beyond, Item.Denotes, Preflight, Items,
        FileVerdict, Poured;
      SoundEnd(format, list.Rows(), payloadEnd, disk.files, path);
      item, left := Item(name, 0, false, []), [];
      NothingPoured(disk.files, disk.log, path, payloadEnd, item.body);
      if !writable || fp.None? {
        return InvalidArgument, item, left;
      }
      s := CheckName(name);
      if s != Ok { return; }
      s, item, left := AddNamed(name, source);
    }

    /** The rest of AddFile, once the name is known to be free. */
    method AddNamed(name: seq<byte>, source: Path) returns (s: Status, ghost item: Item, ghost left: seq<byte>)
      requires Valid() && writable && fp.Some? && 0 !in name && source != path
      requires Preflight(format, list.Rows(), name) == Ok
      modifies this`dirty, this`needsRebuild, this`payloadEnd, this`torn, disk, list, list.nodes`next
      ensures Valid() && SameHandles(old(disk.cursors), disk.cursors) && (old(disk.trouble) ==> disk.trouble)
      ensures Poured(old(disk.files), old(disk.log), disk.files, disk.log, path, old(payloadEnd), item.body, left)
      ensures if s == Ok then !atomic ==> left == item.body else left != [] ==> s == IoError
      ensures torn == (old(torn) || (s != Ok && left != []))
      ensures s == Ok ==> payloadEnd == old(payloadEnd) + |left| && needsRebuild == (atomic || old(needsRebuild))
      ensures atomic ==> left == [] && disk.files == old(disk.files) && disk.log == old(disk.log)
      ensures s == Ok ==>
        source in old(disk.files) && item.Denotes(old(disk.files)[source]) && Added(item) && item.name == name
      ensures s != Ok ==> Unchanged()
      ensures if source !in old(disk.files) then s in {UnsafeName, IoError}
              else FileVerdict(s, format, atomic, old(disk.files)[source], name, item, old(payloadEnd), disk.trouble)
    {
      hide Valid, Contents, AnyStaged, Item.Denotes, Preflight, FileVerdict, SameHandles, Poured, EntryList.Rows;
      SameHandlesRefl(disk.cursors);
      assert path in disk.files by { EndThere(); }
      item, left := Item(name, 0, false, []), [];
      NothingPoured(disk.files, disk.log, path, payloadEnd, item.body);
      var src, size;
      s, src, size := OpenBeside(source);
      ghost var content, end := if source in disk.files then disk.files[source] else [], payloadEnd;
      if s != Ok {
        if source in disk.files { NotOpened(s, format, atomic, content, name, item, end, disk.trouble); }
        return;
      }
      ghost var during := disk.cursors;
      s, item, left := AddOpened(name, source, src, size);
      ClosedAgain(old(disk.cursors), during, disk.cursors, src, source);
      ghost var before := disk.trouble;
      CloseBeside(src);
      VerdictLater(s, format, atomic, content, name, item, end, before, disk.trouble);
    }

    lemma EndThere()
      requires Valid()
      ensures path in disk.files
    {
      hide Filed, Below, EntryList.ListValid, AnyStaged;
    }

    /** Opens a source file; the archive's own handle stays as it is. */
    method OpenBeside(source: Path) returns (s: Status, src: Handle, size: nat)
      requires Valid()
      modifies disk`cursors, disk`next, disk`trouble
      ensures Valid() && (old(disk.trouble) ==> disk.trouble)
      ensures s == Ok ==>
        && source in disk.files && size == |disk.files[source]| && size <= U32_MAX && Some(src) != fp
        && src !in old(disk.cursors) && disk.cursors == old(disk.cursors)[src := Cursor(source, 0)]
      ensures s != Ok ==>
        && disk.cursors == old(disk.cursors)
        && (s == LimitError ==> source in disk.files && |disk.files[source]| > U32_MAX)
        && (s != LimitError ==> (disk.trouble || source !in disk.files) && s in {UnsafeName, IoError})
    {
      hide Sound, Filed, Below, EntryList.ListValid, AnyStaged;
      s, src, size := OpenSource(disk, source);
    }

    method CloseBeside(src: Handle)
      requires Valid() && src in disk.cursors && Some(src) != fp
      modifies disk`cursors, disk`trouble
      ensures Valid() && disk.cursors == old(disk.cursors) - {src} && (old(disk.trouble) ==> disk.trouble)
    {
      hide Sound, Filed, Below, EntryList.ListValid, AnyStaged;
      var _ := disk.Close(src);
    }

    /** The rest of AddFile, once the source is open. */
    method AddOpened(name: seq<byte>, source: Path, src: Handle, size: u32)
      returns (s: Status, ghost item: Item, ghost left: seq<byte>)
      requires Valid() && writable && fp.Some? && 0 !in name && Preflight(format, list.Rows(), name) == Ok
      requires disk.IsOpen(src) && src != fp.value && source != path && disk.cursors[src] == Cursor(source, 0)
      requires size == |disk.files[source]|
      modifies this`dirty, this`needsRebuild, this`payloadEnd, this`torn, disk`files, disk`cursors, disk`log,
        disk`trouble, list, list.nodes`next
      ensures Valid() && SameHandles(old(disk.cursors), disk.cursors) && (old(disk.trouble) ==> disk.trouble)
      ensures Poured(old(disk.files), old(disk.log), disk.files, disk.log, path, old(payloadEnd), item.body, left)
      ensures if s == Ok then !atomic ==> left == item.body else left != [] ==> s == IoError
      ensures torn == (old(torn) || (s != Ok && left != []))
      ensures s == Ok ==> payloadEnd == old(payloadEnd) + |left| && needsRebuild == (atomic || old(needsRebuild))
      ensures atomic ==> left == [] && disk.files == old(disk.files) && disk.log == old(disk.log)
      ensures s == Ok ==>
        && item.Denotes(old(disk.files)[source])
        && Added(item) && item.name == name
      ensures s != Ok ==> Unchanged()
      ensures FileVerdict(s, format, atomic, old(disk.files)[source], name, item, old(payloadEnd), disk.trouble)
    {
      hide Sound, Reloads, Filed, Below, EntryList.ListValid, AnyStaged, RowSound, Preflight, Beyond, Items,
        Item.Denotes, WouldPack, PakPacking.WorthPacking, Poured;
      SoundEnd(format, list.Rows(), payloadEnd, disk.files, path);
      left := [];
      ghost var content := disk.files[source];
      var haveMemory := disk.Works();
      if WouldPack(format, name, size) && haveMemory {
        s, item, left := ReadAndPack(name, source, src, size);
        return;
      }
      item := Item(name, size, false, content);
      NothingPoured(disk.files, disk.log, path, payloadEnd, content);
      StoredDenotes(format, item, content, disk.trouble);
      ghost var before := disk.trouble;
      if atomic {
        s := StageSource(name, source, src, size);
      } else {
        if payloadEnd > U32_MAX - size { return LimitError, item, left; }
        s, left := AppendStream(name, src, size);
      }
      PakPacking.StoresLater(format, name, content, item, before, disk.trouble);
    }

    /** Reads the source as a whole and adds it packed if it is worth it. */
    method ReadAndPack(name: seq<byte>, source: Path, src: Handle, size: u32)
      returns (s: Status, ghost item: Item, ghost left: seq<byte>)
      requires Valid() && writable && fp.Some? && 0 !in name && Preflight(format, list.Rows(), name) == Ok
      requires disk.IsOpen(src) && src != fp.value && source != path && disk.cursors[src] == Cursor(source, 0)
      requires size == |disk.files[source]|
      modifies this`dirty, this`needsRebuild, this`payloadEnd, this`torn, disk`files, disk`cursors, disk`log,
        disk`trouble, list, list.nodes`next
      ensures Valid() && SameHandles(old(disk.cursors), disk.cursors) && (old(disk.trouble) ==> disk.trouble)
      ensures Poured(old(disk.files), old(disk.log), disk.files, disk.log, path, old(payloadEnd), item.body, left)
      ensures if s == Ok then !atomic ==> left == item.body else left != [] ==> s == IoError
      ensures torn == (old(torn) || (s != Ok && left != []))
      ensures s == Ok ==> payloadEnd == old(payloadEnd) + |left| && needsRebuild == (atomic || old(needsRebuild))
      ensures atomic ==> left == [] && disk.files == old(disk.files) && disk.log == old(disk.log)
      ensures s == Ok ==> item.Denotes(old(disk.files)[source]) && Added(item) && item.name == name
      ensures s != Ok ==> Unchanged()
      ensures FileVerdict(s, format, atomic, old(disk.files)[source], name, item, old(payloadEnd), disk.trouble)
    {
      hide Sound, Reloads, Filed, Below, EntryList.ListValid, AnyStaged, Beyond, Item.Denotes, Preflight, Items,
        PakPacking.Stores, Poured;
      SoundEnd(format, list.Rows(), payloadEnd, disk.files, path);
      item, left := Item(name, 0, false, []), [];
      NothingPoured(disk.files, disk.log, path, payloadEnd, item.body);
      var data := disk.Read(src, size);
      if |data| != size { return IoError, item, left; }
      assert data == disk.files[source];
      s, item, left := AddPacked(name, data);
    }

    /** Remembers where the payload is to come from, and its checksum as of now. */
    method StageSource(name: seq<byte>, source: Path, src: Handle, size: u32) returns (s: Status)
      requires Valid() && atomic && writable && fp.Some? && 0 !in name && Preflight(format, list.Rows(), name) == Ok
      requires disk.IsOpen(src) && src != fp.value && source != path && disk.cursors[src] == Cursor(source, 0)
      requires size == |disk.files[source]|
      modifies this`dirty, this`needsRebuild, disk`cursors, disk`trouble, list, list.nodes`next
      ensures Valid() && SameHandles(old(disk.cursors), disk.cursors) && (old(disk.trouble) ==> disk.trouble)
      ensures s == Ok ==> Added(Item(name, size, false, disk.files[source])) && needsRebuild
      ensures s != Ok ==> s in {IoError, NoMemory} && disk.trouble && Unchanged()
    {
      hide Sound, Reloads, Filed, Below, EntryList.ListValid, AnyStaged, RowSound, Preflight, Items;
      SoundEnd(format, list.Rows(), payloadEnd, disk.files, path);
      var crc;
      s, crc := ScanCrc(disk, src);
      if s != Ok { return; }
      var row := Row(name, 0, size, 0, false, crc, Some(source), None);
      NamesFree(name);
      SourceRowSound(format, row, payloadEnd, disk.files, path);
      Stage(row);
      return Ok;
    }

    // ----- Changing entries -----

    /** Removes the first entry of this name. */
    method Delete(name: seq<byte>) returns (s: Status)
      requires Valid()
      modifies this`dirty, this`needsRebuild, list, list.nodes`next
      ensures Valid()
      ensures var rows, items := old(list.Rows()), old(Contents());
              var i := IndexOf(rows, name);
              && s == (if !writable || fp.None? then InvalidArgument else if i == |rows| then NotFound else Ok)
              && (s == Ok ==>
                    && Contents() == items[..i] + items[i + 1..]
                         && list.nodes == old(list.nodes)[..i] + old(list.nodes)[i + 1..]
                    && list.Rows() == rows[..i] + rows[i + 1..] && needsRebuild && dirty)
      ensures s != Ok ==> Unchanged()
    {
      hide Sound, Reloads, Filed, Below, EntryList.ListValid, AnyStaged, IndexOf, Items;
      if !writable || fp.None? {
        return InvalidArgument;
      }
      ghost var rows := list.Rows();
      var found := list.Unlink(name);
      if !found {
        return NotFound;
      }
      SoundAfterCut(format, rows, payloadEnd, IndexOf(rows, name), disk.files, path);
      dirty, needsRebuild := true, true;
      return Ok;
    }

    /** Gives the first entry of this name another name. The payload does not move. */
    method Rename(name: seq<byte>, newName: seq<byte>) returns (s: Status)
      requires Valid() && 0 !in newName
      modifies this`dirty, list.nodes`row
      ensures Valid()
      ensures var rows, items := old(list.Rows()), old(Contents());
              var i := IndexOf(rows, name);
              && s == (if !writable || fp.None? then InvalidArgument else if i == |rows| then NotFound
                       else if name == newName then Ok else Preflight(format, rows, newName))
              && (s == Ok ==>
                    && Contents() == items[i := items[i].(name := newName)]
                    && list.Rows() == rows[i := rows[i].(name := newName)] && (dirty || name == newName))
      ensures s != Ok || name == newName ==> Unchanged()
    {
      hide Sound, Reloads, Filed, Below, EntryList.ListValid, AnyStaged, IndexOf, Items, Preflight;
      if !writable || fp.None? {
        return InvalidArgument;
      }
      var entry, i := list.Find(name);
      ghost var rows := list.Rows();
      if entry == null {
        return NotFound;
      }
      if name == newName {
        return Ok;
      }
      s := CheckName(newName);
      if s != Ok {
        return;
      }
      RenameEntry(entry, i, newName);
    }

    method RenameEntry(entry: Entry, ghost i: nat, newName: seq<byte>)
      requires Valid() && writable && 0 !in newName && Preflight(format, list.Rows(), newName) == Ok
      requires i < |list.nodes| && entry == list.nodes[i]
      modifies this`dirty, entry`row
      ensures Valid() && dirty && list.Rows() == old(list.Rows())[i := old(list.Rows())[i].(name := newName)]
      ensures Contents() == old(Contents())[i := old(Contents())[i].(name := newName)]
    {
      hide Sound, Reloads, Filed, Below, EntryList.ListValid, AnyStaged, Items, Preflight;
      NamesFree(newName);
      SoundAfterRename(format, list.Rows(), payloadEnd, i, newName, disk.files, path);
      list.SetRow(entry, entry.row.(name := newName), i);
      dirty := true;
    }

    /** Adds an entry with the content of the first entry of this name. The copy of a payload on disk
        shares its bytes; the copy of a staged payload is staged as well. */
    method Copy(name: seq<byte>, copyName: seq<byte>) returns (s: Status)
      requires Valid() && 0 !in copyName
      modifies this`dirty, this`needsRebuild, disk`trouble, list, list.nodes`next
      ensures Valid() && (old(disk.trouble) ==> disk.trouble)
      ensures var rows, items := old(list.Rows()), old(Contents());
              var i := IndexOf(rows, name);
              && (s == NoMemory || s == (if !writable || fp.None? then InvalidArgument else if i == |rows| then NotFound
                                         else Preflight(format, rows, copyName)))
              && (s == NoMemory ==> disk.trouble)
              && (s == Ok ==>
                    && Added(items[i].(name := copyName))
                    && (!rows[i].Staged() ==> Alias(rows[i], list.Rows()[|rows|])))
      ensures needsRebuild == old(needsRebuild)
      ensures s != Ok ==> Unchanged()
    {
      hide Sound, Reloads, Filed, Below, EntryList.ListValid, AnyStaged, IndexOf, Preflight, Items, Row.Staged, Alias;
      if !writable || fp.None? {
        return InvalidArgument;
      }
      var entry, i := list.Find(name);
      ghost var rows := list.Rows();
      if entry == null {
        return NotFound;
      }
      s := CheckName(copyName);
      if s != Ok {
        return;
      }
      s := CopyEntry(entry, i, copyName);
    }

    method CopyEntry(entry: Entry, ghost i: nat, copyName: seq<byte>) returns (s: Status)
      requires Valid() && writable && 0 !in copyName && Preflight(format, list.Rows(), copyName) == Ok
      requires i < |list.nodes| && entry == list.nodes[i]
      modifies this`dirty, this`needsRebuild, disk`trouble, list, list.nodes`next
      ensures Valid() && s in {Ok, NoMemory} && (old(disk.trouble) ==> disk.trouble)
      ensures s == NoMemory ==> disk.trouble && Unchanged()
      ensures s == Ok ==> Added(old(Contents())[i].(name := copyName))
      ensures var rows := old(list.Rows());
              s == Ok && !rows[i].Staged() ==> Alias(rows[i], list.Rows()[|rows|])
      ensures needsRebuild == old(needsRebuild)
    {
      hide Sound, Reloads, Filed, Below, EntryList.ListValid, AnyStaged, Preflight, RowSound, Row.Staged, Items;
      var haveMemory := disk.Works();
      if !haveMemory {
        return NoMemory;
      }
      ghost var rows := list.Rows();
      var staged := entry.row.Staged();
      var row := entry.row.(name := copyName, offset := if staged then 0 else entry.row.offset);
      NamesFree(copyName);
      CopiedRow(format, rows, payloadEnd, i, row, disk.files, path);
      SoundAfterAppend(format, rows, payloadEnd, row, payloadEnd, disk.files, path);
      StagedRow(rows, i);
      SharesBytes(rows[i], copyName);
      LinkRow(row, staged);
      return Ok;
    }


    // ----- Committing -----

    /** Writes the directory behind the payloads of the live file. */
    method CommitInPlace() returns (s: Status)
      requires Valid() && dirty && !needsRebuild && !atomic && fp.Some?
      modifies this`dirOffset, this`dirLength, this`fileSize, this`dirty, this`torn, disk`files, disk`cursors,
        disk`log, disk`trouble
      ensures Valid() && SameHandles(old(disk.cursors), disk.cursors) && (old(disk.trouble) ==> disk.trouble)
      ensures Contents() == old(Contents()) && s in {Ok, IoError, LimitError} && (s == IoError ==> disk.trouble)
      ensures Confined(old(disk.files), old(disk.log), disk.files, disk.log, path, payloadEnd)
      ensures s == LimitError <==> !HasRoom(format, |list.Rows()|, payloadEnd)
      ensures (dirty <==> s != Ok) && (torn ==> old(torn) || s == IoError)
      ensures s == Ok ==>
        && Reloads(disk.files[path], format, list.Rows()) && Means(disk.files[path], format, Contents())
        && !torn && fileSize == dirOffset + dirLength
        && (fileSize == |disk.files[path]| <==> |old(disk.files)[path]| <= fileSize)
    {
      hide Sound, Reloads, Filed, Below, EntryList.ListValid, AnyStaged, AllFit, Writable, Items, Beyond,
        DirectoryWritten, TooFar, HasRoom, Means;
      ghost var rows, files0, end := list.Rows(), disk.files, payloadEnd;
      TooFarExactly(format, rows, end);
      SoundEnd(format, rows, end, files0, path);
      SoundIsWritable(format, rows, end, files0, path);
      WritableEnd(format, rows, end);
      var at, length;
      ghost var written;
      s, at, length, written := WriteAndFlush(disk, list, format, fp.value, payloadEnd, dirOffset, dirLength);
      ConfinedMeans(files0, old(disk.log), disk.files, disk.log, path, end);
      BeyondKeepsItems(format, rows, end, files0, disk.files, path);
      if written {
        WrittenReloads(files0[path], disk.files[path], format, rows, end, at, length);
        WrittenIsFiled(files0[path], disk.files[path], format, rows, end, at, length);
        ReloadsMeans(disk.files, path, format, rows);
      }
      Settle(s, at, length, written);
    }

    /** Records how an in-place commit went. */
    method Settle(s: Status, at: nat, length: nat, ghost written: bool)
      requires list.ListValid() && disk.Valid() && Sound(format, list.Rows(), payloadEnd, disk.files, path)
      requires fp.Some? && fp.value in disk.cursors && disk.cursors[fp.value].path == path
      requires dirty && writable && !needsRebuild && !atomic && !AnyStaged(list.Rows())
      requires (s == Ok ==> written) && (written ==> Filed(disk.files[path], format, list.Rows(), at, length))
      modifies this`dirOffset, this`dirLength, this`fileSize, this`dirty, this`torn
      ensures Valid() && dirOffset == at && dirLength == length
      ensures (dirty <==> s != Ok) && (s == Ok ==> fileSize == at + length && !torn)
      ensures (torn ==> old(torn) || s == IoError)
    {
      hide Sound, Filed, Below, EntryList.ListValid, AnyStaged;
      dirOffset, dirLength := at, length;
      torn := (torn || s == IoError) && !written;
      if s == Ok {
        fileSize := at + length;
        dirty := false;
      }
    }

    /** Copies every payload into a scratch file, writes the directory behind them and puts the scratch
        file in the archive's place. Until it is there, everything can be undone. */
    method CommitRebuild() returns (s: Status, ghost l: Layout, published: bool)
      requires Valid() && dirty && fp.Some?
      modifies this`payloadEnd, this`dirOffset, this`dirLength, this`dirty, this`needsRebuild, this`fp, this`torn,
        list.nodes`row, disk
      ensures (old(disk.trouble) ==> disk.trouble) && HandlesKept(old(disk.cursors) - {old(fp).value}, disk.cursors)
      ensures l.rows == old(list.Rows()) && |l.who| == |l.rows| && (!disk.trouble ==> OwnerMap(l.rows, l.who))
      ensures RebuildEnded(s, published, l, old(payloadEnd), old(dirOffset), old(dirLength), old(disk.files),
                           old(disk.log))
      ensures Contents() == old(Contents()) && (!published ==> needsRebuild == old(needsRebuild))
      ensures (torn ==> old(torn)) && (fp.None? ==> disk.trouble)
    {
      hide Sound, Reloads, Filed, Below, EntryList.ListValid, AnyStaged, AllOrNothing, Items, Placed, OwnerMap, Blamed,
        DirectoryWritten, TooFar, AllFit, Unbuildable, Means;
      ghost var files0, log0, end0, cursors0 := disk.files, disk.log, payloadEnd, disk.cursors;
      SoundEnd(format, list.Rows(), payloadEnd, files0, path);
      published := false;
      var rows := list.Snapshot();
      var t, end1, offsets;
      ghost var who, shared, payload;
      s, t, end1, offsets, who, shared, payload := FillScratch(disk, format, path, rows, payloadEnd, fp.value);
      l := Layout(rows, who, offsets[..], payload);
      if s != Ok {
        FailedFill(s, files0, path, format, l);
        StillSound(format, rows, end0, files0, log0, disk.files, disk.log, path);
        return;
      }
      LayoutFits(format, end0, files0, path, rows, who, offsets[..], payload);
      s, published := WriteAndSwap(t, end1, offsets, l, files0, log0);
    }

    /** A rebuild is under way: the layout is known, nothing is published yet, and `end` was the end of
        the payloads when it began. */
    ghost predicate Rebuilding(l: Layout, end: nat, files0: Files, log0: seq<Files>)
      reads this, disk, list, list.nodes
    {
      && list.ListValid() && disk.Valid() && dirty && writable && (torn ==> !atomic)
      && Sound(format, l.rows, end, files0, path) && (AnyStaged(l.rows) ==> needsRebuild && atomic)
      && AllOrNothing(files0, log0, disk.files, disk.log, path, false) && path in files0
      && |l.who| == |l.rows| == |l.offsets| && Placed(files0, path, l.rows, l.who, |l.rows|, l.offsets, l.payload)
      && AllFit(format, WithOffsets(l.rows, l.offsets)) && (l.rows == [] ==> l.payload == [])
    }

    /** How a rebuild that got as far as a layout ends: the old archive, or the whole new one. */
    ghost predicate RebuildEnded(s: Status, published: bool, l: Layout, end: nat, at: nat, length: nat, files0: Files,
                                 log0: seq<Files>)
      requires |l.who| == |l.rows|
      reads this, disk, list, list.nodes
    {
      && Valid() && Contents() == Items(files0, path, l.rows)
      && AllOrNothing(files0, log0, disk.files, disk.log, path, published)
      && (!published ==>
            s != Ok && list.Rows() == l.rows && payloadEnd == end && dirOffset == at && dirLength == length && dirty)
      && (published ==>
            && Relaid(files0, path, format, l, disk.files[path], payloadEnd, dirOffset, dirLength)
            && Reloads(disk.files[path], format, list.Rows())
                 && Means(disk.files[path], format, Items(files0, path, l.rows))
            && list.Rows() == (if s == Ok then Rebuilt(l.rows, l.offsets) else WithOffsets(l.rows, l.offsets)))
      && (s == Ok ==> published && fp.Some? && !dirty && !needsRebuild && !torn)
      && (s != Ok && published ==> s == IoError && fp.None? && dirty && disk.trouble)
      && (s != Ok ==> (disk.trouble && s.Fault()) || Unbuildable(s, files0, path, format, l))
    }

    /** Gives the entries their new offsets, writes the directory into the scratch file and swaps it
        in; whatever fails before that is undone. */
    method WriteAndSwap(t: Scratch, end1: nat, offsets: array<nat>, ghost l: Layout, ghost files0: Files,
                        ghost log0: seq<Files>)
      returns (s: Status, published: bool)
      requires Rebuilding(l, payloadEnd, files0, log0) && list.Rows() == l.rows && LiveHandle() && fp.Some?
      requires offsets[..] == l.offsets && end1 == HEADER_SIZE + |l.payload|
      requires t.handle in disk.cursors && disk.cursors[t.handle].path == t.path && t.handle != fp.value
      requires t.path in disk.files && t.path !in files0 && disk.files[t.path] == Splice([], HEADER_SIZE, l.payload)
      modifies this`payloadEnd, this`dirOffset, this`dirLength, this`dirty, this`needsRebuild, this`fp, this`torn,
        list.nodes`row, disk
      ensures (old(disk.trouble) ==> disk.trouble)
      ensures HandlesKept(old(disk.cursors) - {old(fp).value, t.handle}, disk.cursors)
      ensures RebuildEnded(s, published, l, old(payloadEnd), old(dirOffset), old(dirLength), files0, log0)
      ensures (!published ==> needsRebuild == old(needsRebuild)) && (torn ==> old(torn)) && (fp.None? ==> disk.trouble)
    {
      hide Sound, Reloads, Filed, Below, EntryList.ListValid, AnyStaged, AllOrNothing, Items, Placed, AllFit,
        DirectoryWritten, TooFar, Unbuildable, Splice, Means, Rebuilding, RebuildEnded, Swapped;
      published := false;
      RowsOf(l, payloadEnd, files0, log0);
      var oldEnd, oldAt, oldLength := payloadEnd, dirOffset, dirLength;
      var oldOffsets := Install(offsets, end1, l, oldEnd, files0, log0);
      s, published := FinishAndSwap(t, l, oldEnd, files0, log0);
      if published {
        s := Adopt(l, oldEnd, oldAt, oldLength, files0, log0);
      } else {
        RollBack(s, oldOffsets, oldEnd, oldAt, oldLength, l, files0, log0);
      }
    }

    /** Finishes the scratch file and puts it in the archive's place. */
    method FinishAndSwap(t: Scratch, ghost l: Layout, ghost end: nat, ghost files0: Files, ghost log0: seq<Files>)
      returns (s: Status, published: bool)
      requires Rebuilding(l, end, files0, log0) && LiveHandle() && fp.Some? && fp.value != t.handle
      requires |l.rows| == |l.offsets| && list.Rows() == WithOffsets(l.rows, l.offsets)
      requires payloadEnd == HEADER_SIZE + |l.payload|
      requires t.handle in disk.cursors && disk.cursors[t.handle].path == t.path
      requires t.path in disk.files && t.path !in files0 && disk.files[t.path] == Splice([], HEADER_SIZE, l.payload)
      modifies this`dirOffset, this`dirLength, this`fp, disk
      ensures (old(disk.trouble) ==> disk.trouble)
      ensures HandlesKept(old(disk.cursors) - {old(fp).value, t.handle}, disk.cursors)
      ensures fp.None? ==> disk.trouble
      ensures published ==> Swapped(l, end, files0, log0)
      ensures !published ==>
        && Rebuilding(l, end, files0, log0) && LiveHandle() && list.Rows() == old(list.Rows())
        && s != Ok && |l.who| == |l.rows| && ((disk.trouble && s.Fault()) || Unbuildable(s, files0, path, format, l))
    {
      hide Sound, Reloads, Filed, Below, EntryList.ListValid, AnyStaged, AllOrNothing, Items, Placed, AllFit,
        DirectoryWritten, TooFar, Unbuildable, Splice, Means, Rebuilding, Swapped;
      published := false;
      RowsOf(l, end, files0, log0);
      s := WriteScratchDirectory(t, l, end, files0, log0);
      if s == Ok {
        published := SwapArchive(t, l, end, files0, log0);
        s := if published then Ok else IoError;
      }
    }

    lemma RowsOf(l: Layout, end: nat, files0: Files, log0: seq<Files>)
      requires Rebuilding(l, end, files0, log0)
      ensures list.ListValid() && |l.who| == |l.rows| == |l.offsets|
    {}

    /** The handle, if there is one, is open on the archive. */
    ghost predicate LiveHandle()
      reads this, disk
    {
      fp.Some? ==> fp.value in disk.cursors && disk.cursors[fp.value].path == path
    }

    /** Takes over the offsets and the end of the payloads in the scratch file, and keeps the old
        offsets for undoing this. */
    method Install(offsets: array<nat>, end1: nat, ghost l: Layout, ghost end: nat, ghost files0: Files,
                   ghost log0: seq<Files>)
      returns (oldOffsets: array<nat>)
      requires Rebuilding(l, end, files0, log0) && list.Rows() == l.rows && offsets[..] == l.offsets
      modifies this`payloadEnd, list.nodes`row
      ensures Rebuilding(l, end, files0, log0) && list.Rows() == WithOffsets(l.rows, l.offsets) && payloadEnd == end1
      ensures fresh(oldOffsets) && oldOffsets.Length == |l.rows| && WithOffsets(list.Rows(), oldOffsets[..]) == l.rows
    {
      hide Rebuilding, EntryList.ListValid;
      RowsOf(l, end, files0, log0);
      oldOffsets := list.Offsets();
      Undone(l.rows, l.offsets, oldOffsets[..]);
      Replace(offsets, end1, l, end, files0, log0);
    }

    method Replace(offsets: array<nat>, end1: nat, ghost l: Layout, ghost end: nat, ghost files0: Files,
                   ghost log0: seq<Files>)
      requires Rebuilding(l, end, files0, log0) && list.Rows() == l.rows && offsets[..] == l.offsets
      modifies this`payloadEnd, list.nodes`row
      ensures Rebuilding(l, end, files0, log0) && list.Rows() == WithOffsets(l.rows, l.offsets) && payloadEnd == end1
    {
      hide Sound, Reloads, Filed, Below, EntryList.ListValid, AnyStaged, AllOrNothing, Items, Placed, AllFit,
        DirectoryWritten, TooFar, Unbuildable, Splice, Means;
      list.SetOffsets(offsets);
      payloadEnd := end1;
    }

    /** Finishes the scratch file with the directory of the new layout. */
    method WriteScratchDirectory(t: Scratch, ghost l: Layout, ghost end: nat, ghost files0: Files,
                                 ghost log0: seq<Files>) returns (s: Status)
      requires Rebuilding(l, end, files0, log0) && LiveHandle() && fp != Some(t.handle)
      requires list.Rows() == WithOffsets(l.rows, l.offsets) && payloadEnd == HEADER_SIZE + |l.payload|
      requires t.handle in disk.cursors && disk.cursors[t.handle].path == t.path
      requires t.path in disk.files && t.path !in files0 && disk.files[t.path] == Splice([], HEADER_SIZE, l.payload)
      modifies this`dirOffset, this`dirLength, disk`cursors, disk`files, disk`log, disk`trouble
      ensures Rebuilding(l, end, files0, log0) && LiveHandle() && list.Rows() == old(list.Rows())
      ensures (old(disk.trouble) ==> disk.trouble) && HandlesKept(old(disk.cursors) - {t.handle}, disk.cursors)
      ensures s != Ok ==> (disk.trouble && s.Fault()) || Unbuildable(s, files0, path, format, l)
      ensures s == Ok ==>
        && t.path in disk.files
        && DirectoryWritten(Splice([], HEADER_SIZE, l.payload), disk.files[t.path], format, list.Rows(), payloadEnd,
                            dirOffset, dirLength)
    {
      hide Sound, Reloads, Filed, Below, EntryList.ListValid, AnyStaged, AllOrNothing, Items, Placed, AllFit,
        DirectoryWritten, TooFar, Unbuildable, Splice, Means;
      FailedDirectory(LimitError, files0, path, format, l);
      s, dirOffset, dirLength :=
        FinishScratch(disk, list, format, t, payloadEnd, dirOffset, dirLength, l.payload, files0, log0, path);
    }

    /** The new archive is in place. */
    ghost predicate Swapped(l: Layout, end: nat, files0: Files, log0: seq<Files>)
      reads this, disk, list, list.nodes
    {
      && list.ListValid() && disk.Valid() && dirty && writable && (torn ==> !atomic) && LiveHandle() && path in files0
      && |l.who| == |l.rows| == |l.offsets| && list.Rows() == WithOffsets(l.rows, l.offsets)
           && payloadEnd == HEADER_SIZE + |l.payload|
      && (AnyStaged(list.Rows()) ==> needsRebuild && atomic) && (fp.None? ==> disk.trouble)
      && AllOrNothing(files0, log0, disk.files, disk.log, path, true)
      && Relaid(files0, path, format, l, disk.files[path], payloadEnd, dirOffset, dirLength)
      && var rows1 := WithOffsets(l.rows, l.offsets);
         && Sound(format, rows1, payloadEnd, disk.files, path)
              && Items(disk.files, path, rows1) == Items(files0, path, l.rows)
         && Sound(format, Unstaged(rows1), payloadEnd, disk.files, path)
              && Items(disk.files, path, Unstaged(rows1)) == Items(files0, path, l.rows)
         && !AnyStaged(Unstaged(rows1)) && Reloads(disk.files[path], format, rows1)
         && Filed(disk.files[path], format, Unstaged(rows1), dirOffset, dirLength)
         && Means(disk.files[path], format, Items(files0, path, l.rows))
    }

    /** Puts the scratch file in the archive's place and opens it. */
    method SwapArchive(t: Scratch, ghost l: Layout, ghost end: nat, ghost files0: Files, ghost log0: seq<Files>)
      returns (renamed: bool)
      requires Rebuilding(l, end, files0, log0) && LiveHandle() && fp.Some?
      requires list.Rows() == WithOffsets(l.rows, l.offsets) && payloadEnd == HEADER_SIZE + |l.payload|
      requires t.path in disk.files && t.path !in files0
      requires DirectoryWritten(Splice([], HEADER_SIZE, l.payload), disk.files[t.path], format, list.Rows(),
                                payloadEnd, dirOffset, dirLength)
      modifies this`fp, disk
      ensures (old(disk.trouble) ==> disk.trouble) && HandlesKept(old(disk.cursors) - {old(fp).value}, disk.cursors)
      ensures if renamed then Swapped(l, end, files0, log0) else Rebuilding(l, end, files0, log0) && disk.trouble
      ensures LiveHandle() && list.Rows() == old(list.Rows()) && (fp.None? ==> disk.trouble)
    {
      hide Sound, Reloads, Filed, Below, EntryList.ListValid, AnyStaged, AllOrNothing, Items, Placed, AllFit,
        DirectoryWritten, TooFar, Unbuildable, Splice, Means;
      renamed, fp := SwapIn(disk, t, path, fp.value, files0, log0);
      if renamed {
        PublishLayout(format, end, files0, log0, path, l, disk.files, disk.log, dirOffset, dirLength);
        ReloadsMeans(disk.files, path, format, Unstaged(WithOffsets(l.rows, l.offsets)));
      }
    }

    /** Undoes the new layout: offsets and caches are as before the rebuild. */
    method RollBack(s: Status, oldOffsets: array<nat>, end: nat, at: nat, length: nat, ghost l: Layout,
                    ghost files0: Files, ghost log0: seq<Files>)
      requires Rebuilding(l, end, files0, log0) && LiveHandle() && s != Ok
      requires (disk.trouble && s.Fault()) || Unbuildable(s, files0, path, format, l)
      requires |list.Rows()| == |l.rows| == oldOffsets.Length && WithOffsets(list.Rows(), oldOffsets[..]) == l.rows
      modifies this`payloadEnd, this`dirOffset, this`dirLength, list.nodes`row
      ensures RebuildEnded(s, false, l, end, at, length, files0, log0)
    {
      hide Sound, Reloads, Filed, Below, EntryList.ListValid, AnyStaged, AllOrNothing, Items, Placed, AllFit,
        DirectoryWritten, TooFar, Unbuildable, Splice, Means;
      StillSound(format, l.rows, end, files0, log0, disk.files, disk.log, path);
      list.SetOffsets(oldOffsets);
      SetCaches(end, at, length);
    }

    method SetCaches(end: nat, at: nat, length: nat)
      modifies this`payloadEnd, this`dirOffset, this`dirLength
      ensures payloadEnd == end && dirOffset == at && dirLength == length
    {
      payloadEnd, dirOffset, dirLength := end, at, length;
    }

    method MarkClean()
      modifies this`dirty, this`needsRebuild, this`torn
      ensures !dirty && !needsRebuild && !torn
    {
      dirty, needsRebuild, torn := false, false, false;
    }

    /** Drops what was staged, unless the new archive could not be opened. */
    method Adopt(ghost l: Layout, ghost end: nat, ghost at: nat, ghost length: nat, ghost files0: Files,
                 ghost log0: seq<Files>) returns (s: Status)
      requires Swapped(l, end, files0, log0)
      modifies this`dirty, this`needsRebuild, this`torn, list.nodes`row
      ensures torn ==> old(torn)
      ensures RebuildEnded(s, true, l, end, at, length, files0, log0)
    {
      hide Swapped, RebuildEnded;
      if fp.None? {
        KeepStaged(l, end, at, length, files0, log0);
        return IoError;
      }
      AdoptRows(l, end, at, length, files0, log0);
      return Ok;
    }

    lemma KeepStaged(l: Layout, end: nat, at: nat, length: nat, files0: Files, log0: seq<Files>)
      requires Swapped(l, end, files0, log0) && fp.None?
      ensures RebuildEnded(IoError, true, l, end, at, length, files0, log0)
    {
      hide Sound, Reloads, Filed, Below, EntryList.ListValid, AnyStaged, AllOrNothing, Items, Placed, AllFit,
        DirectoryWritten, TooFar, Unbuildable, Splice, Means, Relaid;
    }

    method AdoptRows(ghost l: Layout, ghost end: nat, ghost at: nat, ghost length: nat, ghost files0: Files,
                     ghost log0: seq<Files>)
      requires Swapped(l, end, files0, log0) && fp.Some?
      modifies this`dirty, this`needsRebuild, this`torn, list.nodes`row
      ensures !torn
      ensures RebuildEnded(Ok, true, l, end, at, length, files0, log0)
    {
      hide Sound, Reloads, Below, EntryList.ListValid, AnyStaged, AllOrNothing, Items, Placed, AllFit,
        DirectoryWritten, TooFar, Unbuildable, Splice, Means, Relaid;
      DropStaged();
    }

    method DropStaged()
      requires list.ListValid()
      modifies this`dirty, this`needsRebuild, this`torn, list.nodes`row
      ensures list.ListValid() && list.Rows() == Unstaged(old(list.Rows())) && !dirty && !needsRebuild && !torn
    {
      hide EntryList.ListValid;
      MarkClean();
      list.ClearStaged();
    }

    /** A clean archive whose directory is intact is what its file opens as. */
    lemma CleanMeans()
      requires Valid() && !dirty && Intact()
      ensures path in disk.files && Means(disk.files[path], format, Contents())
      ensures Filed(disk.files[path], format, list.Rows(), dirOffset, dirLength)
      ensures Reloads(disk.files[path], format, list.Rows())
    {
      hide Sound, Reloads, EntryList.ListValid, AnyStaged, Items, Means, Below;
      SoundEnd(format, list.Rows(), payloadEnd, disk.files, path);
      ReloadsMeans(disk.files, path, format, list.Rows());
    }

    /** Makes the archive's file say what the archive in memory says: nothing to do if nothing changed,
        the directory alone if payloads are where they belong, a rebuild otherwise. */
    method Commit() returns (s: Status, ghost l: Layout, published: bool)
      requires Valid()
      modifies this`payloadEnd, this`dirOffset, this`dirLength, this`fileSize, this`dirty, this`needsRebuild, this`fp,
        this`torn, list.nodes`row, disk
      ensures Valid() && Contents() == old(Contents()) && (old(disk.trouble) ==> disk.trouble)
      ensures s == Ok <==> !dirty
      ensures (old(fp).Some? && fp.None? ==> s != Ok && disk.trouble) && (fp.Some? ==> old(fp).Some?)
      ensures !old(dirty) ==> s == Ok && disk.files == old(disk.files) && disk.log == old(disk.log) && !published
      ensures !old(dirty) ==>
        Unchanged() && torn == old(torn) && dirOffset == old(dirOffset) && dirLength == old(dirLength)
      ensures torn ==> old(torn) || s == IoError
      ensures s == Ok && Intact() ==> Means(disk.files[path], format, Contents())
      ensures old(dirty) && (s == Ok || published) ==> Means(disk.files[path], format, Contents())
      ensures old(dirty) && s == Ok ==> Reloads(disk.files[path], format, list.Rows()) && !torn
      ensures old(dirty) && old(fp).None? ==>
        s == InvalidArgument && Unchanged() && disk.files == old(disk.files) && disk.log == old(disk.log)
      ensures atomic || old(needsRebuild) ==>
        AllOrNothing(old(disk.files), old(disk.log), disk.files, disk.log, path, published)
      ensures !atomic && !old(needsRebuild) ==>
        !published && Confined(old(disk.files), old(disk.log), disk.files, disk.log, path, old(payloadEnd))
          && list.Rows() == old(list.Rows()) && payloadEnd == old(payloadEnd)
      ensures published ==>
        && |l.who| == |l.rows| && l.rows == old(list.Rows()) && (!disk.trouble ==> OwnerMap(l.rows, l.who))
        && Relaid(old(disk.files), path, format, l, disk.files[path], payloadEnd, dirOffset, dirLength)
        && Reloads(disk.files[path], format, list.Rows())
      ensures (atomic || old(needsRebuild)) && !published ==>
        list.Rows() == old(list.Rows()) && payloadEnd == old(payloadEnd) && dirOffset == old(dirOffset)
          && dirLength == old(dirLength)
      ensures !disk.trouble && old(dirty) && old(fp).Some? ==>
        var files0, rows0, rebuild := old(disk.files), old(list.Rows()), atomic || old(needsRebuild);
        && (s == Ok <==> Committable(files0, format, rows0, old(payloadEnd), rebuild))
        && (s == Ok || Uncommittable(s, files0, format, rows0, old(payloadEnd), rebuild))
      ensures s != Ok && old(fp).Some? ==>
        || (disk.trouble && s.Fault())
        || Excused(s, old(disk.files), format, old(list.Rows()), old(payloadEnd), atomic || old(needsRebuild))
    {
      hide Sound, Reloads, Filed, Below, EntryList.ListValid, AnyStaged, Items, Relaid, TooFar, Unbuildable, OwnerMap,
        Means, Committable, Uncommittable, Excused;
      ghost var files0, rows0, end0 := disk.files, list.Rows(), payloadEnd;
      SoundEnd(format, list.Rows(), payloadEnd, disk.files, path);
      NothingHappened(disk.files, disk.log, path);
      NothingWritten(disk.files, disk.log, path, payloadEnd);
      l, published := Layout([], [], [], []), false;
      if !dirty {
        if Intact() { CleanMeans(); }
        return Ok, l, published;
      }
      if !writable || fp.None? {
        return InvalidArgument, l, published;
      }
      if !needsRebuild && !atomic {
        s := CommitInPlace();
        DecidedInPlace(s, files0, format, rows0, end0);
      } else {
        s, l, published := CommitRebuild();
        NotWithoutReason(s, files0, path, format, l, end0);
        if !disk.trouble {
          DecidedRebuild(s, files0, path, format, l, end0, disk.files, payloadEnd, dirOffset, dirLength);
        }
      }
    }
  }

  /** What a rebuild made of the rows: who owns whose bytes, the new offsets, and all payloads in
      one piece. */
  datatype Layout = Layout(rows: seq<Row>, who: seq<nat>, offsets: seq<nat>, payload: seq<byte>)

  /** The file is the image of the layout, and every row's payload is at its new place. */
  ghost predicate Relaid(files0: Files, path: Path, fmt: Format, l: Layout, file: seq<byte>, end: nat, dirOffset: nat,
                         dirLength: nat)
  {
    && |l.who| == |l.rows| && |l.offsets| == |l.rows| && end == HEADER_SIZE + |l.payload|
    && Placed(files0, path, l.rows, l.who, |l.rows|, l.offsets, l.payload)
    && DirectoryWritten(Splice([], HEADER_SIZE, l.payload), file, fmt, WithOffsets(l.rows, l.offsets), end, dirOffset,
                        dirLength)
  }

  /** The reasons for which a rebuild fails by itself: the result would be too large, or a source
      file is not what it was when it was added. */
  ghost predicate Unbuildable(s: Status, files: Files, path: Path, fmt: Format, l: Layout)
    requires |l.who| == |l.rows|
  {
    || (s == LimitError && TooFar(fmt, l.rows, HEADER_SIZE + OwnedBytes(l.rows, l.who, |l.rows|)))
    || (s == FormatError && exists r <- l.rows :: !Trustworthy(files, path, r))
  }

  lemma DecidedInPlace(s: Status, files: Files, fmt: Format, rows: seq<Row>, end: nat)
    requires s == LimitError <==> !HasRoom(fmt, |rows|, end)
    ensures s in {Ok, LimitError} ==> (s == Ok <==> Committable(files, fmt, rows, end, false))
    ensures s in {Ok, LimitError} ==>
      s == Ok || (Uncommittable(s, files, fmt, rows, end, false) && Excused(s, files, fmt, rows, end, false))
  {
    hide HasRoom;
  }

  lemma NotWithoutReason(s: Status, files: Files, path: Path, fmt: Format, l: Layout, end: nat)
    requires |l.who| == |l.rows| && Sound(fmt, l.rows, end, files, path)
    ensures Unbuildable(s, files, path, fmt, l) ==> Excused(s, files, fmt, l.rows, end, true)
  {
    hide Sound, TooFar, Trustworthy, Genuine;
    forall r | r in l.rows ensures Trustworthy(files, path, r) <==> Genuine(files, r) {
      TrustedExactly(fmt, l.rows, end, files, path, r);
    }
    TooFarExactly(fmt, l.rows, HEADER_SIZE + OwnedBytes(l.rows, l.who, |l.rows|));
    SharingSaves(l.rows, l.who, |l.rows|);
  }

  /** A rebuild that nothing disturbs succeeds exactly if there is room and no source has changed. */
  lemma DecidedRebuild(s: Status, files: Files, path: Path, fmt: Format, l: Layout, end: nat, now: Files, end1: nat,
                       dirOffset: nat, dirLength: nat)
    requires |l.who| == |l.rows| && OwnerMap(l.rows, l.who) && Sound(fmt, l.rows, end, files, path)
    requires s == Ok ==> path in now && Relaid(files, path, fmt, l, now[path], end1, dirOffset, dirLength)
    requires s != Ok ==> Unbuildable(s, files, path, fmt, l)
    ensures s == Ok <==> Committable(files, fmt, l.rows, end, true)
    ensures s == Ok || Uncommittable(s, files, fmt, l.rows, end, true)
  {
    hide Sound, OwnerMap, TooFar, Trustworthy, Genuine, HasRoom, Relaid, Committable;
    forall r | r in l.rows ensures Trustworthy(files, path, r) <==> Genuine(files, r) {
      TrustedExactly(fmt, l.rows, end, files, path, r);
    }
    if s == Ok {
      Cleared(files, path, fmt, l, end, now[path], end1, dirOffset, dirLength);
    } else {
      TooFarExactly(fmt, l.rows, HEADER_SIZE + OwnedBytes(l.rows, l.who, |l.rows|));
      UncommittableIsNot(s, files, fmt, l.rows, end, true);
    }
  }

  lemma Cleared(files: Files, path: Path, fmt: Format, l: Layout, end: nat, file: seq<byte>, end1: nat, dirOffset: nat,
                dirLength: nat)
    requires |l.who| == |l.rows| && OwnerMap(l.rows, l.who)
    requires Relaid(files, path, fmt, l, file, end1, dirOffset, dirLength)
    requires forall r <- l.rows :: Trustworthy(files, path, r) <==> Genuine(files, r)
    ensures Committable(files, fmt, l.rows, end, true)
  {
    hide OwnerMap, Trustworthy, Genuine, AllFit, Apart, Follow, Image, DirBytes;
    forall i | 0 <= i < |l.rows| ensures Genuine(files, l.rows[i]) {
      assert PlacedRow(files, path, l.rows[i], l.offsets[i], l.payload);
    }
    DirectoryTakes(fmt, WithOffsets(l.rows, l.offsets));
    forall who: seq<nat> | OwnerMap(l.rows, who) ensures who == l.who {
      OneOwnerMap(l.rows, who, l.who);
    }
  }

  /** Putting the old offsets back undoes the new ones. */
  lemma Undone(rows: seq<Row>, offsets: seq<nat>, oldOffsets: seq<nat>)
    requires |rows| == |offsets| == |oldOffsets| && forall k :: 0 <= k < |rows| ==> oldOffsets[k] == rows[k].offset
    ensures WithOffsets(WithOffsets(rows, offsets), oldOffsets) == rows
  {}

  lemma FailedDirectory(s: Status, files: Files, path: Path, fmt: Format, l: Layout)
    requires |l.who| == |l.rows| == |l.offsets| && Placed(files, path, l.rows, l.who, |l.rows|, l.offsets, l.payload)
    ensures s == LimitError && TooFar(fmt, WithOffsets(l.rows, l.offsets), HEADER_SIZE + |l.payload|) ==>
      Unbuildable(s, files, path, fmt, l)
  {}

  lemma PublishLayout(fmt: Format, end0: nat, files0: Files, log0: seq<Files>, path: Path, l: Layout, files1: Files,
                      log1: seq<Files>, at: nat, length: nat)
    requires Sound(fmt, l.rows, end0, files0, path) && AllOrNothing(files0, log0, files1, log1, path, true)
    requires |l.who| == |l.rows| == |l.offsets| && Placed(files0, path, l.rows, l.who, |l.rows|, l.offsets, l.payload)
    requires l.rows == [] ==> l.payload == []
    requires DirectoryWritten(Splice([], HEADER_SIZE, l.payload), files1[path], fmt, WithOffsets(l.rows, l.offsets),
                              HEADER_SIZE + |l.payload|, at, length)
    ensures var rows1, end := WithOffsets(l.rows, l.offsets), HEADER_SIZE + |l.payload|;
            && Sound(fmt, rows1, end, files1, path) && Items(files1, path, rows1) == Items(files0, path, l.rows)
            && Sound(fmt, Unstaged(rows1), end, files1, path)
                 && Items(files1, path, Unstaged(rows1)) == Items(files0, path, l.rows)
            && !AnyStaged(Unstaged(rows1)) && (AnyStaged(rows1) ==> AnyStaged(l.rows))
            && Reloads(files1[path], fmt, rows1) && Reloads(files1[path], fmt, Unstaged(rows1))
            && Filed(files1[path], fmt, Unstaged(rows1), at, length)
            && Relaid(files0, path, fmt, l, files1[path], end, at, length)
  {
    hide Sound, Items, Placed, Image, DirBytes, AllFit, Splice, Reloads, Kept, HeaderAt;
    WrittenHeader(Splice([], HEADER_SIZE, l.payload), files1[path], fmt, WithOffsets(l.rows, l.offsets),
                  HEADER_SIZE + |l.payload|, at, length);
    Publish(fmt, end0, files0, path, l.rows, l.who, l.offsets, l.payload, files1);
  }

  lemma FailedFill(s: Status, files: Files, path: Path, fmt: Format, l: Layout)
    requires |l.who| == |l.rows|
    ensures Blamed(s, files, path, l.rows, l.who) ==> Unbuildable(s, files, path, fmt, l)
  {
    hide Trustworthy;
  }

  /** As long as nothing is published, the archive means what it meant. */
  lemma StillSound(fmt: Format, rows: seq<Row>, end: nat, files0: Files, log0: seq<Files>, files1: Files,
                   log1: seq<Files>, path: Path)
    requires Sound(fmt, rows, end, files0, path) && AllOrNothing(files0, log0, files1, log1, path, false)
    ensures Sound(fmt, rows, end, files1, path) && Items(files1, path, rows) == Items(files0, path, rows)
    ensures path in files0 && path in files1 && files1[path] == files0[path]
  {
    hide Sound, Items;
    assert Extends(files0, files1);
    ExtendsKeepsItems(fmt, rows, end, files0, files1, path);
  }

  lemma CopiedRow(fmt: Format, rows: seq<Row>, end: nat, i: nat, r: Row, files: Files, path: Path)
    requires Sound(fmt, rows, end, files, path) && i < |rows| && |r.name| <= fmt.NameLen() && 0 !in r.name
    requires r == rows[i].(name := r.name, offset := if rows[i].Staged() then 0 else rows[i].offset)
    ensures RowSound(fmt, r, end, files, path) && end <= |files[path]|
    ensures ItemOf(files, path, r) == ItemOf(files, path, rows[i]).(name := r.name)
  {
    assert RowSound(fmt, rows[i], end, files, path);
  }

  lemma SharesBytes(r: Row, name: seq<byte>)
    ensures var c := r.(name := name, offset := if r.Staged() then 0 else r.offset);
            && (c.Staged() <==> r.Staged())
            && (!r.Staged() ==> Alias(r, c))
  {}

  lemma StagedRow(rows: seq<Row>, i: nat)
    requires i < |rows|
    ensures rows[i].Staged() ==> AnyStaged(rows)
  {}

  lemma StoredDenotes(fmt: Format, item: Item, content: seq<byte>, trouble: bool)
    requires !item.compressed && item.length == |content| && item.body == content
    requires WouldPack(fmt, item.name, item.length) ==> trouble
    ensures item.Denotes(content) && PakPacking.Stores(fmt, item.name, content, item, trouble)
  {
    WorthNeeds(fmt, item.name, content);
  }

  lemma ClosedAgain(c0: map<Handle, Cursor>, c1: map<Handle, Cursor>, c2: map<Handle, Cursor>, h: Handle, source: Path)
    requires h !in c0 && c1 == c0[h := Cursor(source, 0)] && SameHandles(c1, c2)
    ensures h in c2 && SameHandles(c0, c2 - {h})
  {
    assert (c2 - {h}).Keys == c0.Keys;
  }

  lemma SameHandlesRefl(c: map<Handle, Cursor>)
    ensures SameHandles(c, c)
  {}

  lemma SourceRowSound(fmt: Format, r: Row, end: nat, files: Files, path: Path)
    requires |r.name| <= fmt.NameLen() && 0 !in r.name && r.offset == 0 && r.length <= U32_MAX && r.packed == 0
    requires !r.compressed
    requires r.source.Some? && r.data.None? && r.source.value in files && r.source.value != path
    ensures RowSound(fmt, r, end, files, path)
    ensures ItemOf(files, path, r) == Item(r.name, r.length, r.compressed, files[r.source.value])
  {}

  lemma ConfinedMeans(f0: Files, l0: seq<Files>, f1: Files, l1: seq<Files>, p: Path, end: nat)
    requires Confined(f0, l0, f1, l1, p, end)
    ensures Beyond(f0, f1, p, end)
  {}

  /** What is known about the file after something has been poured in. */
  lemma PouredMeans(f0: Files, l0: seq<Files>, f1: Files, l1: seq<Files>, p: Path, end: nat, body: seq<byte>,
                    left: seq<byte>)
    requires Poured(f0, l0, f1, l1, p, end, body, left) && end <= |f0[p]|
    ensures Beyond(f0, f1, p, end) && p in f1 && f1[p] == Splice(f0[p], end, left)
    ensures left == body ==> end + |body| <= |f1[p]| && Slice(f1[p], end, |body|) == body
  {
    if left == body && body != [] { SpliceHere(f0[p], end, body); }
  }

  lemma StagedRowSound(fmt: Format, r: Row, end: nat, files: Files, path: Path)
    requires |r.name| <= fmt.NameLen() && 0 !in r.name && r.offset == 0 && r.length <= U32_MAX && r.packed <= U32_MAX
    requires r.source.None? && r.data.Some? && |r.data.value| == r.Extent()
    requires if r.compressed then fmt.Compresses() && DkCodec.Accepts(r.data.value, r.length) else r.packed == 0
    ensures RowSound(fmt, r, end, files, path)
    ensures ItemOf(files, path, r) == Item(r.name, r.length, r.compressed, r.data.value)
  {}

  lemma WrittenItem(files: Files, path: Path, r: Row, body: seq<byte>)
    requires path in files && !r.Staged() && r.Extent() == |body| && Slice(files[path], r.offset, |body|) == body
    ensures ItemOf(files, path, r) == Item(r.name, r.length, r.compressed, body)
  {}

  lemma WrittenRowSound(fmt: Format, r: Row, files: Files, path: Path)
    requires |r.name| <= fmt.NameLen() && 0 !in r.name
    requires !r.Staged() && HEADER_SIZE <= r.offset && r.End() <= U32_MAX && r.length <= U32_MAX
    requires if r.compressed then fmt.Compresses() else r.packed == 0
    ensures RowSound(fmt, r, r.End(), files, path)
  {}

  lemma SoundEnd(fmt: Format, rows: seq<Row>, end: nat, files: Files, path: Path)
    requires Sound(fmt, rows, end, files, path)
    ensures path in files && HEADER_SIZE <= end <= |files[path]|
  {}
}
