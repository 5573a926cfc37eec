/** Opening, creating and closing PAK-class archives. */
module PakLifecycle {
  import opened ByteStrings
  import opened Outcomes
  import opened PakFormat
  import opened PakDirectories
  import opened PakStates
  import opened PakCopying
  import opened PakWriting
  import opened PakSharing
  import opened PakArchives
  import opened PakLimits
  import opened PakLoading
  import opened PakCourses
  import opened Commands
  import opened EntryLists
  import opened Disks

  datatype Mode = Read | ReadWrite | ReadWriteAtomic

  // ----- Opening -----

  /** What opening accepts is a sound state, and it is what the file says. */
  lemma LoadedIsSound(files: Files, path: Path, fmt: Format)
    requires path in files && Load(files[path], As(fmt)).Success?
    ensures var o := Load(files[path], As(fmt)).value;
            && o.header.format == fmt
            && Sound(fmt, o.rows, o.payloadEnd, files, path) && !AnyStaged(o.rows) && Reloads(files[path], fmt, o.rows)
  {
    hide LoadHeader, PayloadEnd, DistinctNames;
    var file := files[path];
    var h := LoadHeader(file, As(fmt)).value;
    NamedFormat(file, fmt);
    OpensAsItsFormat(file, As(fmt));
    var dir := file[h.dirOffset..h.dirOffset + h.dirLength];
    var rows := ParseDir(fmt, dir);
    ParsedRows(fmt, dir);
    PayloadEndInside(rows, |file|);
    forall r | r in rows ensures RowSound(fmt, r, PayloadEnd(rows), files, path) && !r.Staged() {
      assert InRange(fmt, r, |file|);
    }
    forall i | 0 <= i < |rows| ensures Recorded(rows)[i] == rows[i] {
      assert rows[i] in rows;
    }
    assert Recorded(rows) == rows;
  }

  lemma NamedFormat(file: seq<byte>, fmt: Format)
    requires LoadHeader(file, As(fmt)).Success?
    ensures LoadHeader(file, As(fmt)).value.format == fmt && |file| >= HEADER_SIZE
  {}

  lemma {:induction false} ParsedRows(fmt: Format, s: seq<byte>)
    ensures forall r <- ParseDir(fmt, s) :: Fits(fmt, r) && r.Recorded() == r
    decreases |s|
  {
    hide Fits, ParseRow;
    if |s| >= fmt.RowSize() {
      ParsedRows(fmt, s[fmt.RowSize()..]);
      ParsedRowFits(fmt, s[..fmt.RowSize()]);
    }
  }

  lemma {:induction false} PayloadEndInside(rows: seq<Row>, size: nat)
    requires size >= HEADER_SIZE && forall r <- rows :: r.End() <= size
    ensures PayloadEnd(rows) <= size
  {
    if rows != [] {
      PayloadEndInside(rows[..|rows| - 1], size);
    }
  }

  /** What opening the path must give: the archive the file describes. */
  ghost predicate OpensAs(file: seq<byte>, hint: Hint, s: Status, fmt: Format, rows: seq<Row>, trouble: bool) {
    if s == Ok then
      && Load(file, As(fmt)).Success? && rows == Load(file, As(fmt)).value.rows
      && (trouble || (Load(file, hint).Success? && Load(file, hint).value.header.format == fmt))
    else trouble || Load(file, hint) == Failure(s)
  }

  /** Reads header and directory and checks the names. */
  method LoadArchive(disk: Disk, h: Handle, hint: Hint)
    returns (s: Status, header: Header, size: nat, list: EntryList, payloadEnd: nat)
    requires disk.Valid() && disk.IsOpen(h)
    modifies disk`cursors, disk`trouble
    ensures disk.Valid() && SameHandles(old(disk.cursors), disk.cursors) && (old(disk.trouble) ==> disk.trouble)
    ensures fresh(list) && list.ListValid() && forall i :: 0 <= i < |list.nodes| ==> fresh(list.nodes[i])
    ensures var file := disk.files[disk.cursors[h].path];
            && OpensAs(file, hint, s, header.format, list.Rows(), disk.trouble)
            && (s == Ok ==> payloadEnd == Load(file, As(header.format)).value.payloadEnd && size == |file|
                            && header == Load(file, As(header.format)).value.header
                                 && (hint.As? ==> header.format == hint.format))
  {
    hide LoadHeader, Load, OpensAs, RowsFrom, PayloadEnd, DistinctNames, EntryList.ListValid, InRange, Format.RowSize;
    ghost var file := disk.files[disk.cursors[h].path];
    header, payloadEnd := Header(Pak, 0, 0), 0;
    list := new EntryList();
    var r;
    r, size := LoadPakfile(disk, h, hint);
    if r.Failure? {
      HeaderRefused(file, hint, r.status, header.format, list.Rows(), disk.trouble);
      return r.status, header, size, list, payloadEnd;
    }
    header := r.value;
    WholeRows(file, hint, header);
    s, list, payloadEnd := LoadDirectory(disk, h, header, size);
    if s != Ok {
      RowsRefused(file, hint, header, s, list.Rows(), disk.trouble);
      return;
    }
    s := ValidateNoDuplicates(disk, list, header.format);
    NamesChecked(file, hint, header, s, list.Rows(), disk.trouble);
  }

  lemma HeaderRefused(file: seq<byte>, hint: Hint, s: Status, fmt: Format, rows: seq<Row>, trouble: bool)
    requires s != Ok && (trouble || LoadHeader(file, hint) == Failure(s))
    ensures OpensAs(file, hint, s, fmt, rows, trouble)
  {
    hide LoadHeader;
  }

  /** The header is that of the file, under the format settled on. */
  ghost predicate HeaderRead(file: seq<byte>, hint: Hint, h: Header, trouble: bool) {
    && LoadHeader(file, As(h.format)) == Success(h) && (trouble || LoadHeader(file, hint) == Success(h))
    && h.dirOffset + h.dirLength <= |file|
  }

  lemma RowsRefused(file: seq<byte>, hint: Hint, h: Header, s: Status, rows: seq<Row>, trouble: bool)
    requires HeaderRead(file, hint, h, trouble) && s != Ok
    requires s == FormatError ==>
               exists r <- RowsFrom(file, h.format, h.dirOffset, h.dirOffset + h.dirLength) ::
                 !InRange(h.format, r, |file|)
    requires s != FormatError ==> trouble
    ensures OpensAs(file, hint, s, h.format, rows, trouble)
  {
    hide LoadHeader, ParseDir, InRange;
  }

  lemma NamesChecked(file: seq<byte>, hint: Hint, h: Header, s: Status, rows: seq<Row>, trouble: bool)
    requires HeaderRead(file, hint, h, trouble)
    requires rows == RowsFrom(file, h.format, h.dirOffset, h.dirOffset + h.dirLength)
    requires forall r <- rows :: InRange(h.format, r, |file|)
    requires s == Ok ==> h.format.Wad() || DistinctNames(rows)
    requires s == Duplicate ==> !h.format.Wad() && !DistinctNames(rows)
    requires s !in {Ok, Duplicate} ==> trouble
    ensures OpensAs(file, hint, s, h.format, rows, trouble)
    ensures s == Ok ==> Load(file, As(h.format)) == Success(Opened(h, rows, PayloadEnd(rows)))
  {
    hide LoadHeader, ParseDir, InRange, DistinctNames, PayloadEnd;
  }

  lemma WholeRows(file: seq<byte>, hint: Hint, h: Header)
    requires LoadHeader(file, As(h.format)) == Success(h)
    ensures h.dirOffset + h.dirLength <= |file| && h.dirLength % h.format.RowSize() == 0
  {
    hide ParseHeader, Classify;
  }

  /** Opens the file for reading, or locks it and opens it for writing. */
  method OpenArchive(disk: Disk, path: Path, hint: Hint, mode: Mode) returns (r: Result<Archive>)
    requires disk.Valid()
    modifies disk`cursors, disk`next, disk`trouble
    ensures disk.Valid() && (old(disk.trouble) ==> disk.trouble)
    ensures r.Success? ==>
      var a := r.value;
      && a.Valid() && fresh(a) && fresh(a.list) && a.disk == disk && a.path == path && path in disk.files
           && a.newPath.None?
      && OpensAs(disk.files[path], hint, Ok, a.format, a.list.Rows(), disk.trouble)
      && Means(disk.files[path], a.format, a.Contents()) && |a.Contents()| <= MAX_ENTRIES
           && (hint.As? ==> a.format == hint.format)
      && a.writable == (mode != Read) && a.atomic == (mode == ReadWriteAtomic) && a.fp.Some? && !a.dirty && !a.torn
      && a.fileSize == |disk.files[path]| && a.maxDecompressed == 0x400_0000
    ensures r.Success? ==> forall i :: 0 <= i < |r.value.list.nodes| ==> fresh(r.value.list.nodes[i])
    ensures r != Failure(Ok)
    ensures r.Failure? ==> disk.trouble || (path in disk.files && Load(disk.files[path], hint) == Failure(r.status))
  {
    hide Load, Reloads, Filed, Below, Sound, EntryList.ListValid, AnyStaged, Means, Items;
    var h := disk.Open(path);
    if h.None? { return Failure(IoError); }
    if mode != Read {
      var locked := disk.Works();
      if !locked {
        var _ := disk.Close(h.value);
        return Failure(IoError);
      }
    }
    var s, header, size, list, end := LoadArchive(disk, h.value, hint);
    if s != Ok {
      var _ := disk.Close(h.value);
      return Failure(s);
    }
    LoadedIsSound(disk.files, path, header.format);
    LoadedIsFiled(disk.files[path], header.format);
    OpensAsItsFormat(disk.files[path], As(header.format));
    ReloadsMeans(disk.files, path, header.format, list.Rows());
    var a := new Archive(disk, list, path, None, header.format, mode != Read, mode == ReadWriteAtomic, end,
                         header.dirOffset, header.dirLength, size, h.value, DEFAULT_MAX_DECOMPRESSED);
    return Success(a);
  }

  // ----- Creating -----

  /** Starts an archive in a temporary file with an empty header; it gets its name when it is closed. */
  method CreateArchive(disk: Disk, path: Path, fmt: Format) returns (r: Result<Archive>)
    requires disk.Valid()
    modifies disk
    ensures disk.Valid() && (old(disk.trouble) ==> disk.trouble) && Extends(old(disk.files), disk.files)
    ensures path in old(disk.files) ==> r == Failure(Exists)
    ensures r.Failure? ==> (disk.trouble && r.status.Fault()) || path in old(disk.files)
    ensures r.Success? ==>
      var a := r.value;
      && a.Valid() && fresh(a) && fresh(a.list) && a.disk == disk && a.newPath == Some(path)
           && a.path !in old(disk.files) && TempName(a.path)
      && a.Contents() == [] && a.format == fmt && a.writable && !a.atomic && a.fp.Some? && !a.dirty && !a.torn
      && a.path in disk.files && disk.files[a.path] == HeaderBytes(fmt, HEADER_SIZE, 0)
      && a.maxDecompressed == if fmt == Daikatana then 0x400_0000 else 0
  {
    hide Reloads, Filed, Below, Sound, EntryList.ListValid, AnyStaged, HeaderBytes;
    if path in disk.files { return Failure(Exists); }
    var temp := disk.CreateTemp();
    if temp.None? { return Failure(IoError); }
    var h, scratch := temp.value.0, temp.value.1;
    ghost var before := disk.files;
    var s := WriteHeader(disk, fmt, h, HEADER_SIZE, 0, HEADER_SIZE);
    ConfinedMeans(before, old(disk.log) + [before], disk.files, disk.log, scratch, HEADER_SIZE);
    if s != Ok {
      var _ := disk.Close(h);
      return Failure(s);
    }
    EmptyArchive(disk.files, scratch, fmt);
    var list := new EntryList();
    var a := new Archive(disk, list, scratch, Some(path), fmt, true, false, HEADER_SIZE, HEADER_SIZE, 0, 0, h,
                         if fmt.Daikatana? then DEFAULT_MAX_DECOMPRESSED else 0);
    return Success(a);
  }

  lemma EmptyArchive(files: Files, path: Path, fmt: Format)
    requires path in files && files[path] == Splice([], 0, HeaderBytes(fmt, HEADER_SIZE, 0))
    ensures files[path] == HeaderBytes(fmt, HEADER_SIZE, 0)
    ensures Sound(fmt, [], HEADER_SIZE, files, path) && !AnyStaged([]) && Filed(files[path], fmt, [], HEADER_SIZE, 0)
  {
    hide Reloads, HeaderBytes;
    assert Splice([], HEADER_SIZE, []) == [];
    assert Image([], fmt, [], HEADER_SIZE) == files[path];
    ImageReloads([], fmt, [], HEADER_SIZE);
  }

  // ----- Closing -----

  /** A commit, put on record. */
  method CommitNow(a: Archive) returns (s: Status, ghost published: bool)
    requires a.Valid()
    modifies a`payloadEnd, a`dirOffset, a`dirLength, a`fileSize, a`dirty, a`needsRebuild, a`fp, a`torn,
      a.list.nodes`row, a.disk
    ensures Followed(a, Save, Event(s, NOTHING, a.disk.trouble, published))
    ensures a.path in a.disk.files && Kept(old(a.disk.files), a.disk.files, a.path) && (s == Ok <==> !a.dirty)
    ensures s == Ok ==> (old(a.dirty) || old(a.Intact()) ==> a.Intact()) && (old(a.fp).Some? ==> a.fp.Some?)
  {
    hide Sound, Reloads, Filed, Below, EntryList.ListValid, AnyStaged, Items, Relaid, Unbuildable, TooFar, Means,
      OwnerMap, Confined, AllOrNothing, Present, Traced, Trustworthy;
    ghost var rows, m, log0 := a.list.Rows(), Now(a), a.disk.log;
    NowPresent(a);
    SoundEnd(a.format, rows, a.payloadEnd, a.disk.files, a.path);
    ghost var l;
    var swapped;
    s, l, swapped := a.Commit();
    published := swapped;
    ghost var e := Event(s, NOTHING, a.disk.trouble, swapped);
    NowPresent(a);
    if m.rebuild {
      AllOrNothingGrows(m.files, log0, a.disk.files, a.disk.log, a.path, swapped);
      TracedWhole(KindOf(a), Save, e, m, Now(a), log0, a.disk.log);
    } else {
      ConfinedGrows(m.files, log0, a.disk.files, a.disk.log, a.path, m.end);
      TracedBehind(KindOf(a), Save, e, m, Now(a), log0, a.disk.log);
    }
  }

  /** Commits what closing would otherwise lose. */
  method CommitPending(a: Archive) returns (s: Status, ghost published: bool)
    requires a.Valid()
    modifies a`payloadEnd, a`dirOffset, a`dirLength, a`fileSize, a`dirty, a`needsRebuild, a`fp, a`torn,
      a.list.nodes`row, a.disk
    ensures Followed(a, Save, Event(s, NOTHING, a.disk.trouble, published)) && a.Contents() == old(a.Contents())
    ensures a.path in a.disk.files && Kept(old(a.disk.files), a.disk.files, a.path) && (s == Ok <==> !a.dirty)
    ensures s == Ok ==> (old(a.dirty) || old(a.Intact()) ==> a.Intact()) && (old(a.fp).Some? ==> a.fp.Some?)
    ensures s != Ok ==>
      || a.disk.trouble || (s == InvalidArgument && old(a.dirty) && old(a.fp).None?)
      || Uncommittable(s, old(a.disk.files), a.format, old(a.list.Rows()), old(a.payloadEnd),
                       a.atomic || old(a.needsRebuild))
  {
    hide Archive.Valid, Archive.Contents, Archive.Intact, Means, Items, Uncommittable, Present, Traced, EntryList.Rows;
    s, published := Ok, false;
    NowPresent(a);
    DirtyIsWritable(a);
    if a.dirty {
      s, published := CommitNow(a);
      NowPresent(a);
    } else {
      NothingPending(a);
      NothingToSave(KindOf(a), Event(Ok, NOTHING, a.disk.trouble, false), Now(a), a.disk.log);
    }
  }

  lemma DirtyIsWritable(a: Archive)
    requires a.Valid()
    ensures a.dirty ==> a.writable
  {
    hide Sound, Filed, Below, EntryList.ListValid, AnyStaged;
  }

  lemma NothingPending(a: Archive)
    requires a.Valid() && !a.dirty
    ensures !a.needsRebuild && Kept(a.disk.files, a.disk.files, a.path)
  {
    hide Sound, Filed, Below, EntryList.ListValid, AnyStaged;
  }

  method CloseHandle(a: Archive) returns (closed: bool)
    requires a.disk.Valid() && (a.fp.Some? ==> a.fp.value in a.disk.cursors)
    modifies a`fp, a.disk`cursors, a.disk`trouble
    ensures a.disk.Valid() && (old(a.disk.trouble) ==> a.disk.trouble)
    ensures !closed ==> a.disk.trouble
  {
    closed := true;
    if a.fp.Some? {
      closed := a.disk.Close(a.fp.value);
      a.fp := None;
    }
  }

  /** Closes the file; if all went well, an archive being created gets its name. */
  method Release(a: Archive, committed: Status) returns (s: Status)
    requires a.disk.Valid() && a.path in a.disk.files && (a.fp.Some? ==> a.fp.value in a.disk.cursors)
    modifies a`fp, a.disk
    ensures a.disk.Valid() && (old(a.disk.trouble) ==> a.disk.trouble) && old(a.disk.log) <= a.disk.log
    ensures a.newPath.None? ==> s == committed && a.disk.files == old(a.disk.files) && a.disk.log == old(a.disk.log)
    ensures if s == Ok then
              var home := if a.newPath.Some? then a.newPath.value else a.path;
              && committed == Ok && home in a.disk.files && a.disk.files[home] == old(a.disk.files)[a.path]
            else
              && a.disk.files == old(a.disk.files)
              && (committed != Ok ==> s == committed)
              && (committed == Ok ==>
                    || (a.disk.trouble && s == IoError)
                    || (s == Exists && a.newPath.Some? && a.newPath.value in a.disk.files))
  {
    s := committed;
    var closed := CloseHandle(a);
    if a.newPath.Some? && s == Ok {
      if !closed { return IoError; }
      s := Publish(a, a.newPath.value);
    }
  }

  /** Commits what is pending, closes the file and, for an archive being created, gives it its name
      unless that is taken or something failed. `e` is what came of the commit, and `after` the moment
      behind it; for an archive that has its name already, that is all that happens to its file. */
  method CloseArchive(a: Archive) returns (s: Status, ghost e: Event<Item>, ghost after: Moment)
    requires a.Valid()
    modifies a, a.list.nodes`row, a.disk
    ensures a.disk.Valid() && (old(a.disk.trouble) ==> a.disk.trouble) && old(a.disk.log) <= a.disk.log
    ensures Moves(KindOf(a), Save, e, old(Now(a)), after, a.disk.log) && (e.failed ==> a.disk.trouble)
    ensures a.newPath.None? ==> e.status == s && a.disk.files == after.files && |a.disk.log| == after.time
    ensures var home := if a.newPath.Some? then a.newPath.value else a.path;
            && (s == Ok ==> home in a.disk.files && Closed(a, home, old(a.Contents()), old(a.dirty || a.Intact())))
            && (s != Ok && a.newPath.Some? ==> NotPublished(old(a.disk.files), a.disk.files, home, a.path))
            && (s != e.status ==>
                  && e.status == Ok && a.newPath.Some?
                  && ((a.disk.trouble && s == IoError) || (s == Exists && home in a.disk.files)))
    ensures s != Ok ==>
      || a.disk.trouble || (s == InvalidArgument && old(a.dirty) && old(a.fp).None?)
      || (s == Exists && a.newPath.Some? && a.newPath.value in a.disk.files)
      || Uncommittable(s, old(a.disk.files), a.format, old(a.list.Rows()), old(a.payloadEnd),
                       a.atomic || old(a.needsRebuild))
  {
    hide Closed, Archive.Valid, Archive.Contents, Archive.Intact, AnyStaged, Items, Kept, Means, Uncommittable, Moves,
      Reloads, EntryList.Rows, NotPublished;
    ghost var m, items, intact := Now(a), a.Contents(), a.dirty || a.Intact();
    s, e, after := ReadyToClose(a);
    ghost var log := a.disk.log;
    s := Release(a, s);
    MovesStay(KindOf(a), Save, e, m, after, log, a.disk.log);
    if s == Ok {
      ghost var home := if a.newPath.Some? then a.newPath.value else a.path;
      MovedArchive(a.format, after.rows, after.files, a.path, a.disk.files, home);
      Finished(a, home, items, intact);
    }
  }

  /** The commit that closing makes, and what it leaves to be closed. */
  method ReadyToClose(a: Archive) returns (s: Status, ghost e: Event<Item>, ghost after: Moment)
    requires a.Valid()
    modifies a`payloadEnd, a`dirOffset, a`dirLength, a`fileSize, a`dirty, a`needsRebuild, a`fp, a`torn,
      a.list.nodes`row, a.disk
    ensures a.disk.Valid() && (old(a.disk.trouble) ==> a.disk.trouble) && old(a.disk.log) <= a.disk.log
    ensures a.path in a.disk.files && (a.fp.Some? ==> a.fp.value in a.disk.cursors)
    ensures Moves(KindOf(a), Save, e, old(Now(a)), after, a.disk.log) && (e.failed ==> a.disk.trouble)
    ensures after == Now(a) && e.status == s
    ensures Items(a.disk.files, a.path, a.list.Rows()) == old(a.Contents())
    ensures s == Ok ==> !AnyStaged(a.list.Rows())
    ensures s == Ok && old(a.dirty || a.Intact()) ==> Reloads(a.disk.files[a.path], a.format, a.list.Rows())
    ensures forall home: Path :: NotPublished(old(a.disk.files), a.disk.files, home, a.path)
    ensures s != Ok ==>
      || a.disk.trouble || (s == InvalidArgument && old(a.dirty) && old(a.fp).None?)
      || Uncommittable(s, old(a.disk.files), a.format, old(a.list.Rows()), old(a.payloadEnd),
                       a.atomic || old(a.needsRebuild))
  {
    hide Archive.Valid, Archive.Contents, Archive.Intact, AnyStaged, Items, Kept, Means, Uncommittable, Moves, Reloads,
      EntryList.Rows, NotPublished;
    ghost var published;
    s, published := CommitPending(a);
    e, after := Event(s, NOTHING, a.disk.trouble, published), Now(a);
    if s == Ok && old(a.dirty || a.Intact()) { a.CleanMeans(); }
    AboutToClose(a);
    KeepsOthers(old(a.disk.files), a.disk.files, a.path);
  }

  lemma AboutToClose(a: Archive)
    requires a.Valid()
    ensures a.disk.Valid() && a.path in a.disk.files && (a.fp.Some? ==> a.fp.value in a.disk.cursors)
    ensures a.Contents() == Items(a.disk.files, a.path, a.list.Rows()) && (!a.dirty ==> !AnyStaged(a.list.Rows()))
  {
    hide Sound, Filed, Below, EntryList.ListValid, AnyStaged, Items;
    SoundEnd(a.format, a.list.Rows(), a.payloadEnd, a.disk.files, a.path);
  }

  lemma Finished(a: Archive, home: Path, items: seq<Item>, intact: bool)
    requires home in a.disk.files && Items(a.disk.files, home, a.list.Rows()) == items && !AnyStaged(a.list.Rows())
    requires intact ==> Reloads(a.disk.files[home], a.format, a.list.Rows())
    ensures Closed(a, home, items, intact)
  {
    hide Reloads, Items, AnyStaged, Means;
    if intact { ReloadsMeans(a.disk.files, home, a.format, a.list.Rows()); }
  }

  /** The file at home holds these contents and, if its directory is intact, opens as them. */
  ghost predicate Closed(a: Archive, home: Path, items: seq<Item>, intact: bool)
    requires home in a.disk.files
    reads a, a.disk, a.list, a.list.nodes
  {
    && Items(a.disk.files, home, a.list.Rows()) == items && !AnyStaged(a.list.Rows())
    && (intact ==> Reloads(a.disk.files[home], a.format, a.list.Rows()) && Means(a.disk.files[home], a.format, items))
  }

  /** An archive that could not be finished has not touched the name it was to get. */
  ghost predicate NotPublished(before: Files, after: Files, home: Path, temporary: Path) {
    home == temporary
      || (if home in before then home in after && after[home] == before[home] else home !in after || TempName(home))
  }

  lemma KeepsOthers(before: Files, after: Files, path: Path)
    requires Kept(before, after, path)
    ensures forall home: Path :: NotPublished(before, after, home, path)
  {}

  method Publish(a: Archive, target: Path) returns (s: Status)
    requires a.disk.Valid() && a.path in a.disk.files
    modifies a.disk`files, a.disk`log, a.disk`trouble
    ensures a.disk.Valid() && (old(a.disk.trouble) ==> a.disk.trouble)
    ensures old(a.disk.log) <= a.disk.log
    ensures if s == Ok then target !in old(a.disk.files) && target in a.disk.files
      && a.disk.files[target] == old(a.disk.files)[a.path]
            else a.disk.files == old(a.disk.files)
    ensures s != Ok ==>
      s in {Exists, IoError} && (s == Exists <==> target in old(a.disk.files)) && (s == IoError ==> a.disk.trouble)
  {
    var renamed := a.disk.RenameNew(a.path, target);
    s := if renamed then Ok else if target in a.disk.files then Exists else IoError;
  }
}
