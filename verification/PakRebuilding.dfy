/** The copy loop of a rebuild: every payload goes into the scratch file, shared ones once. */
module PakRebuilding {
  import opened ByteStrings
  import opened Outcomes
  import opened PakFormat
  import opened PakSharing
  import opened PakStates
  import opened PakCopying
  import opened PakLayouts
  import opened PakWriting
  import opened EntryLists
  import opened Disks

  /** Who owns whose bytes: the sharing map, or everybody their own when it could not be built. */
  ghost predicate Owners(rows: seq<Row>, owner: array?<nat>, who: seq<nat>)
    reads owner
  {
    && |who| == |rows|
    && if owner == null then forall k :: 0 <= k < |rows| ==> who[k] == k
       else owner[..] == who && OwnerMap(rows, who)
  }

  /** The sharing map, unless there is nothing to share or no memory for it. */
  method ChooseOwners(disk: Disk, rows: seq<Row>) returns (owner: array?<nat>, ghost who: seq<nat>)
    modifies disk`trouble
    ensures Owners(rows, owner, who) && (owner != null ==> fresh(owner))
    ensures (old(disk.trouble) ==> disk.trouble) && (!disk.trouble ==> OwnerMap(rows, who))
  {
    var haveMemory := disk.Works();
    if rows == [] || !haveMemory {
      return null, seq(|rows|, i => i);
    }
    var sharing := BuildOwners(rows);
    return sharing, sharing[..];
  }

  /** Copies what row i needs and says where its payload is now. */
  method CopyOne(disk: Disk, fmt: Format, path: Path, rows: seq<Row>, i: nat, ghost end: nat, ghost files0: Files,
                 from: Handle, to: Handle, owner: array?<nat>, ghost who: seq<nat>, offsets: array<nat>,
                   ghost payload: seq<byte>)
    returns (s: Status, at: nat, ghost more: seq<byte>)
    requires disk.Valid() && disk.IsOpen(from) && disk.cursors[from].path == path
    requires Holding(disk.files, disk.cursors, to, SCRATCH, payload) && disk.cursors[to].path !in files0
    requires Sound(fmt, rows, end, files0, path) && Extends(files0, disk.files)
    requires i < |rows| && offsets.Length == |rows| && Owners(rows, owner, who)
    requires Placed(files0, path, rows, who, i, offsets[..], payload)
    modifies disk
    ensures disk.Valid() && SameHandles(old(disk.cursors), disk.cursors) && (old(disk.trouble) ==> disk.trouble)
    ensures Confined(old(disk.files), old(disk.log), disk.files, disk.log, disk.cursors[to].path, SCRATCH.end)
    ensures Extends(files0, disk.files) && disk.IsOpen(to)
    ensures s != Ok ==>
      || (disk.trouble && s.Fault()) || (s == LimitError && HEADER_SIZE + |payload| > U32_MAX)
      || (s == FormatError && !Trustworthy(files0, path, rows[i]))
    ensures s == Ok ==>
      && Placed(files0, path, rows, who, i + 1, old(offsets[..])[i := at], payload + more)
      && Holding(disk.files, disk.cursors, to, SCRATCH, payload + more)
  {
    hide Placed, Splice, RowSound, OwnerMap, Body, Trustworthy;
    more := [];
    if owner != null && owner[i] != i {
      PlaceAlias(files0, path, rows, who, i, offsets[..], payload);
      at := offsets[owner[i]];
      assert payload + [] == payload;
      return Ok, at, more;
    }
    ExtendsKeepsRow(fmt, rows, end, files0, disk.files, path, i);
    s, at := CopyBetweenPaks(disk, fmt, path, rows[i], end, from, to, payload);
    TrustCarries(files0, old(disk.files), path, rows[i]);
    if s != Ok {
      return;
    }
    more := Body(files0, path, rows[i]);
    PlaceOwner(files0, path, rows, who, i, offsets[..], payload);
  }

  lemma TrustCarries(before: Files, after: Files, path: Path, r: Row)
    requires Body(after, path, r) == Body(before, path, r)
    ensures Trustworthy(after, path, r) <==> Trustworthy(before, path, r)
  {}

  /** A rebuild can only fail by itself for these reasons: the payloads do not fit, or a source file is
      not what it was when it was added. */
  ghost predicate Blamed(s: Status, files: Files, path: Path, rows: seq<Row>, who: seq<nat>)
    requires |rows| == |who|
  {
    || (s == LimitError && HEADER_SIZE + OwnedBytes(rows, who, |rows|) > U32_MAX)
    || (s == FormatError && exists r <- rows :: !Trustworthy(files, path, r))
  }

  lemma {:induction false} OwnedBytesGrow(rows: seq<Row>, who: seq<nat>, i: nat, n: nat)
    requires i <= n <= |rows| == |who|
    ensures OwnedBytes(rows, who, i) <= OwnedBytes(rows, who, n)
    decreases n
  {
    if i < n {
      OwnedBytesGrow(rows, who, i, n - 1);
    }
  }

  lemma OneBlamed(s: Status, files: Files, path: Path, rows: seq<Row>, who: seq<nat>, i: nat, offsets: seq<nat>,
                  payload: seq<byte>)
    requires i < |rows| == |who| && Placed(files, path, rows, who, i, offsets, payload)
    requires (s == LimitError && HEADER_SIZE + |payload| > U32_MAX)
             || (s == FormatError && !Trustworthy(files, path, rows[i]))
    ensures Blamed(s, files, path, rows, who)
  {
    hide PlacedRow, Trustworthy;
    OwnedBytesGrow(rows, who, i, |rows|);
  }

  lemma NothingPlaced(files: Files, path: Path, rows: seq<Row>, who: seq<nat>, offsets: seq<nat>)
    requires |offsets| == |rows| == |who|
    ensures Placed(files, path, rows, who, 0, offsets, [])
  {}

  /** Copies the payloads of all rows, in list order. */
  method CopyAll(disk: Disk, fmt: Format, path: Path, rows: seq<Row>, ghost end: nat, ghost files0: Files,
                 from: Handle, to: Handle, owner: array?<nat>, ghost who: seq<nat>)
    returns (s: Status, offsets: array<nat>, ghost payload: seq<byte>)
    requires disk.Valid() && disk.IsOpen(from) && disk.cursors[from].path == path
    requires Holding(disk.files, disk.cursors, to, SCRATCH, []) && disk.cursors[to].path !in files0
    requires Sound(fmt, rows, end, files0, path) && Extends(files0, disk.files)
    requires Owners(rows, owner, who)
    modifies disk
    ensures disk.Valid() && SameHandles(old(disk.cursors), disk.cursors) && (old(disk.trouble) ==> disk.trouble)
    ensures Confined(old(disk.files), old(disk.log), disk.files, disk.log, old(disk.cursors)[to].path, SCRATCH.end)
    ensures disk.IsOpen(to) && Extends(files0, disk.files) && fresh(offsets) && offsets.Length == |rows|
    ensures s != Ok ==> (disk.trouble && s.Fault()) || Blamed(s, files0, path, rows, who)
    ensures s == Ok ==>
      && Placed(files0, path, rows, who, |rows|, offsets[..], payload)
      && Holding(disk.files, disk.cursors, to, SCRATCH, payload)
  {
    hide Placed, Splice, Sound, Confined, Trustworthy, Blamed;
    SoundPath(fmt, rows, end, files0, path);
    NothingWritten(disk.files, disk.log, disk.cursors[to].path, SCRATCH.end);
    ghost var scratch := disk.cursors[to].path;
    offsets := new nat[|rows|];
    payload := [];
    s := Ok;
    NothingPlaced(files0, path, rows, who, offsets[..]);
    for i := 0 to |rows|
      invariant disk.Valid() && SameHandles(old(disk.cursors), disk.cursors) && (old(disk.trouble) ==> disk.trouble)
      invariant Extends(files0, disk.files)
      invariant Confined(old(disk.files), old(disk.log), disk.files, disk.log, scratch, SCRATCH.end)
      invariant Holding(disk.files, disk.cursors, to, SCRATCH, payload)
      invariant Placed(files0, path, rows, who, i, offsets[..], payload)
      invariant s == Ok
    {
      ghost var f0, l0, before := disk.files, disk.log, offsets[..];
      var at;
      ghost var more;
      s, at, more := CopyOne(disk, fmt, path, rows, i, end, files0, from, to, owner, who, offsets, payload);
      ConfinedChains(old(disk.files), old(disk.log), f0, l0, disk.files, disk.log, scratch, SCRATCH.end);
      if s != Ok {
        if !(disk.trouble && s.Fault()) { OneBlamed(s, files0, path, rows, who, i, offsets[..], payload); }
        return;
      }
      offsets[i] := at;
      assert offsets[..] == before[i := at];
      payload := payload + more;
    }
  }

  lemma SoundPath(fmt: Format, rows: seq<Row>, end: nat, files: Files, path: Path)
    requires Sound(fmt, rows, end, files, path)
    ensures path in files && end <= |files[path]|
  {}

  // ----- The scratch file -----

  /** Handles that were open still are, on the same files. */
  ghost predicate HandlesKept(c0: map<Handle, Cursor>, c1: map<Handle, Cursor>) {
    forall h <- c0 :: h in c1 && c1[h].path == c0[h].path
  }

  /** Gives up on the scratch file, which may stay behind. */
  method Abandon(disk: Disk, h: Handle, scratch: Path, ghost files0: Files, ghost log0: seq<Files>, ghost path: Path)
    requires disk.Valid() && h in disk.cursors && scratch !in files0
    requires AllOrNothing(files0, log0, disk.files, disk.log, path, false)
    modifies disk`cursors, disk`files, disk`log, disk`trouble
    ensures disk.Valid() && disk.cursors == old(disk.cursors) - {h} && (old(disk.trouble) ==> disk.trouble)
    ensures AllOrNothing(files0, log0, disk.files, disk.log, path, false)
  {
    var _ := disk.Close(h);
    disk.Remove(scratch);
  }

  /** A write to a file that was not there before leaves the archive alone. */
  lemma ScratchIsHarmless(files0: Files, log0: seq<Files>, f1: Files, l1: seq<Files>, f2: Files, l2: seq<Files>,
                          scratch: Path, end: nat, path: Path)
    requires AllOrNothing(files0, log0, f1, l1, path, false) && Confined(f1, l1, f2, l2, scratch, end)
    requires scratch !in files0
    ensures AllOrNothing(files0, log0, f2, l2, path, false) && (Extends(files0, f1) ==> Extends(files0, f2))
  {
    forall i | |log0| <= i < |l2| ensures OldOrNew(files0, l2[i], f2, path, false) {
      if i < |l1| {
        assert l2[i] == l1[i] && OldOrNew(files0, l1[i], f1, path, false);
      } else {
        assert Beyond(f1, l2[i], scratch, end);
      }
    }
  }

  datatype Scratch = Scratch(handle: Handle, path: Path)

  /** Creates an empty scratch file, positioned behind the room for its header. */
  method StartScratch(disk: Disk, path: Path) returns (t: Option<Scratch>)
    requires disk.Valid() && path in disk.files
    modifies disk
    ensures disk.Valid() && HandlesKept(old(disk.cursors), disk.cursors) && (old(disk.trouble) ==> disk.trouble)
    ensures AllOrNothing(old(disk.files), old(disk.log), disk.files, disk.log, path, false)
    ensures t.None? ==> disk.trouble
    ensures t.Some? ==>
      && t.value.path !in old(disk.files) && t.value.handle !in old(disk.cursors)
           && Extends(old(disk.files), disk.files)
      && Holding(disk.files, disk.cursors, t.value.handle, SCRATCH, [])
      && disk.cursors[t.value.handle].path == t.value.path
  {
    ghost var files0, log0 := disk.files, disk.log;
    var temp := disk.CreateTemp();
    if temp.None? {
      return None;
    }
    var h, scratch := temp.value.0, temp.value.1;
    var ok := disk.Seek(h, HEADER_SIZE);
    if !ok {
      Abandon(disk, h, scratch, files0, log0, path);
      return None;
    }
    EmptyScratch();
    t := Some(Scratch(h, scratch));
  }

  /** Creates a scratch file and copies all payloads into it. */
  method FillScratch(disk: Disk, fmt: Format, path: Path, rows: seq<Row>, ghost end: nat, from: Handle)
    returns (s: Status, t: Scratch, end1: nat, offsets: array<nat>, ghost who: seq<nat>, ghost shared: bool,
             ghost payload: seq<byte>)
    requires disk.Valid() && disk.IsOpen(from) && disk.cursors[from].path == path
    requires Sound(fmt, rows, end, disk.files, path)
    modifies disk
    ensures disk.Valid() && HandlesKept(old(disk.cursors), disk.cursors) && (old(disk.trouble) ==> disk.trouble)
    ensures fresh(offsets)
    ensures AllOrNothing(old(disk.files), old(disk.log), disk.files, disk.log, path, false)
    ensures |who| == |rows| && (!disk.trouble ==> OwnerMap(rows, who))
    ensures s != Ok ==> (disk.trouble && s.Fault()) || Blamed(s, old(disk.files), path, rows, who)
    ensures s == Ok ==>
      && t.path !in old(disk.files) && t.handle !in old(disk.cursors) && Extends(old(disk.files), disk.files)
      && t.handle in disk.cursors && disk.cursors[t.handle].path == t.path
      && t.path in disk.files && disk.files[t.path] == Splice([], HEADER_SIZE, payload)
      && end1 == HEADER_SIZE + |payload|
      && (shared ==> OwnerMap(rows, who)) && offsets.Length == |rows|
      && Placed(old(disk.files), path, rows, who, |rows|, offsets[..], payload)
  {
    hide Placed, OwnerMap, Splice, Sound, AllOrNothing, Confined, Blamed, Extends, Owners;
    SoundPath(fmt, rows, end, disk.files, path);
    ghost var files0, log0 := disk.files, disk.log;
    NothingHappened(files0, log0, path);
    s, t, end1, offsets := NoMemory, Scratch(0, path), 0, new nat[0];
    who, shared, payload := seq(|rows|, i => i), false, [];
    var haveMemory := disk.Works();
    if rows != [] && !haveMemory { return; }
    var start := StartScratch(disk, path);
    if start.None? {
      s := IoError;
      return;
    }
    t := start.value;
    ghost var f1, l1 := disk.files, disk.log;
    s, end1, offsets, who, shared, payload := FillStarted(disk, fmt, path, rows, end, files0, from, t.handle);
    ScratchIsHarmless(files0, log0, f1, l1, disk.files, disk.log, t.path, SCRATCH.end, path);
    if s != Ok {
      Abandon(disk, t.handle, t.path, files0, log0, path);
    }
  }

  /** Copies all payloads into the scratch file just created. */
  method FillStarted(disk: Disk, fmt: Format, path: Path, rows: seq<Row>, ghost end: nat, ghost files0: Files,
                     from: Handle, to: Handle)
    returns (s: Status, end1: nat, offsets: array<nat>, ghost who: seq<nat>, ghost shared: bool,
             ghost payload: seq<byte>)
    requires disk.Valid() && disk.IsOpen(from) && disk.cursors[from].path == path
    requires Holding(disk.files, disk.cursors, to, SCRATCH, []) && disk.cursors[to].path !in files0
    requires Sound(fmt, rows, end, files0, path) && Extends(files0, disk.files)
    modifies disk
    ensures disk.Valid() && SameHandles(old(disk.cursors), disk.cursors) && (old(disk.trouble) ==> disk.trouble)
    ensures Confined(old(disk.files), old(disk.log), disk.files, disk.log, old(disk.cursors)[to].path, SCRATCH.end)
    ensures disk.IsOpen(to) && Extends(files0, disk.files) && fresh(offsets) && offsets.Length == |rows|
    ensures |who| == |rows| && (!disk.trouble ==> OwnerMap(rows, who)) && (shared ==> OwnerMap(rows, who))
    ensures s != Ok ==> (disk.trouble && s.Fault()) || Blamed(s, files0, path, rows, who)
    ensures s == Ok ==>
      && Placed(files0, path, rows, who, |rows|, offsets[..], payload)
      && Holding(disk.files, disk.cursors, to, SCRATCH, payload) && end1 == HEADER_SIZE + |payload|
  {
    hide Placed, OwnerMap, Splice, Sound, Confined, Blamed, Extends;
    var owner;
    owner, who := ChooseOwners(disk, rows);
    shared := owner != null;
    s, offsets, payload := CopyAll(disk, fmt, path, rows, end, files0, from, to, owner, who);
    end1 := 0;
    if s != Ok { return; }
    var tell := disk.Tell(to);
    if tell.None? {
      s := IoError;
      return;
    }
    end1 := tell.value;
    var haveMemory := disk.Works();
    if rows != [] && !haveMemory {
      s := NoMemory;
    }
  }

  lemma NothingHappened(files: Files, log: seq<Files>, path: Path)
    requires path in files
    ensures AllOrNothing(files, log, files, log, path, false)
  {}

  lemma EmptyScratch()
    ensures Splice([], HEADER_SIZE, []) == []
  {}

  /** Writes the directory behind the payloads in the scratch file and closes it; what cannot be
      finished is thrown away. */
  method FinishScratch(disk: Disk, list: EntryList, fmt: Format, t: Scratch, end1: nat, at0: nat, length0: nat,
                       ghost payload: seq<byte>, ghost files0: Files, ghost log0: seq<Files>, ghost path: Path)
    returns (s: Status, at: nat, length: nat)
    requires disk.Valid() && t.handle in disk.cursors && disk.cursors[t.handle].path == t.path
    requires t.path in disk.files && t.path !in files0 && disk.files[t.path] == Splice([], HEADER_SIZE, payload)
    requires AllOrNothing(files0, log0, disk.files, disk.log, path, false)
    requires list.ListValid() && AllFit(fmt, list.Rows()) && end1 == HEADER_SIZE + |payload|
    modifies disk`cursors, disk`files, disk`log, disk`trouble
    ensures disk.Valid() && HandlesKept(old(disk.cursors) - {t.handle}, disk.cursors)
    ensures (old(disk.trouble) ==> disk.trouble)
    ensures AllOrNothing(files0, log0, disk.files, disk.log, path, false)
    ensures s != Ok ==> (disk.trouble && s.Fault()) || (s == LimitError && TooFar(fmt, list.Rows(), end1))
    ensures s == Ok ==>
      && t.path in disk.files
      && DirectoryWritten(Splice([], HEADER_SIZE, payload), disk.files[t.path], fmt, list.Rows(), end1, at, length)
  {
    hide AllOrNothing, Confined, DirectoryWritten, TooFar, Splice, EntryList.ListValid;
    ghost var f1, l1 := disk.files, disk.log;
    s, at, length := WriteDirectory(disk, list, fmt, t.handle, end1, at0, length0);
    ScratchIsHarmless(files0, log0, f1, l1, disk.files, disk.log, t.path, end1, path);
    var closed := disk.Close(t.handle);
    if s == Ok && !closed {
      s := IoError;
    }
    if s != Ok {
      RemoveScratch(disk, t.path, files0, log0, path);
    } else {
      StillThere(f1, l1, disk.files, disk.log, t.path, end1);
    }
  }

  method RemoveScratch(disk: Disk, scratch: Path, ghost files0: Files, ghost log0: seq<Files>, ghost path: Path)
    requires disk.Valid() && scratch !in files0 && AllOrNothing(files0, log0, disk.files, disk.log, path, false)
    modifies disk`files, disk`log, disk`trouble
    ensures disk.Valid() && (old(disk.trouble) ==> disk.trouble)
    ensures AllOrNothing(files0, log0, disk.files, disk.log, path, false)
  {
    disk.Remove(scratch);
  }

  /** Closes the archive, puts the scratch file in its place and opens it again. If it cannot be put
      there it is thrown away, and the old archive is opened again. */
  method SwapIn(disk: Disk, t: Scratch, path: Path, fp: Handle, ghost files0: Files, ghost log0: seq<Files>)
    returns (renamed: bool, h: Option<Handle>)
    requires disk.Valid() && fp in disk.cursors && t.path in disk.files && t.path !in files0 && path in files0
    requires AllOrNothing(files0, log0, disk.files, disk.log, path, false)
    modifies disk
    ensures disk.Valid() && HandlesKept(old(disk.cursors) - {fp}, disk.cursors) && (old(disk.trouble) ==> disk.trouble)
    ensures AllOrNothing(files0, log0, disk.files, disk.log, path, renamed)
    ensures (!renamed || h.None? ==> disk.trouble) && (renamed ==> disk.files[path] == old(disk.files)[t.path])
    ensures h.Some? ==> h.value in disk.cursors && disk.cursors[h.value].path == path
  {
    var _ := disk.Close(fp);
    ghost var f1, l1 := disk.files, disk.log;
    renamed := disk.Rename(t.path, path);
    Renamed(files0, log0, f1, l1, disk.files, disk.log, t.path, path, renamed);
    if !renamed {
      RemoveScratch(disk, t.path, files0, log0, path);
    }
    h := disk.Open(path);
  }

  lemma Renamed(files0: Files, log0: seq<Files>, f1: Files, l1: seq<Files>, f2: Files, l2: seq<Files>, scratch: Path,
                path: Path, ok: bool)
    requires AllOrNothing(files0, log0, f1, l1, path, false) && scratch !in files0 && scratch in f1
    requires f2 == (if ok then (f1 - {scratch})[path := f1[scratch]] else f1) && l2 == l1 + [f2]
    ensures AllOrNothing(files0, log0, f2, l2, path, ok)
  {
    forall i | |log0| <= i < |l2|
      ensures OldOrNew(files0, l2[i], f2, path, ok) && (i < |l1| ==> l2[i][path] == files0[path])
    {
      if i < |l1| { assert l2[i] == l1[i] && OldOrNew(files0, l1[i], f1, path, false); }
    }
  }
}
