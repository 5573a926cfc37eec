/** Whole runs on a ZIP archive: any commands in any order, each of which may fail at any point. */
module ZipRuns {
  import opened ByteStrings
  import opened Outcomes
  import opened Commands
  import opened ZipCommitting
  import opened ZipAdding
  import opened ZipArchives
  import opened ZipCourses
  import opened ZipClosing
  import opened Disks

  // ----- One command -----

  method DoAdd(a: ZipArchive, c: Command) returns (s: Status, ghost item: ZipItem)
    requires a.Valid() && (c.AddBytes? || c.AddFrom?)
    modifies a`entries, a`dirty, a.disk`cursors, a.disk`next, a.disk`trouble
    ensures Followed(a, c, Event(s, item, a.disk.trouble, false))
  {
    hide ZipArchive.Valid, ZipArchive.Contents, Present, Traced, ItemsFor, Queued, Preflight;
    NowPresent(a);
    ghost var m := Now(a);
    if c.AddBytes? {
      item := Queued(a.codec, a.deflates, c.name, c.data);
      s := a.AddMemory(c.name, c.data);
    } else {
      item := Queued(a.codec, a.deflates, c.name, if c.source in a.disk.files then a.disk.files[c.source] else []);
      s := a.AddFile(c.name, c.source);
    }
    NowPresent(a);
    TracedNothing(KindOf(a), Event(s, item, a.disk.trouble, false), m, Now(a), a.disk.log);
  }

  method DoRemove(a: ZipArchive, name: seq<byte>) returns (s: Status)
    requires a.Valid()
    modifies a`entries, a`dirty
    ensures Followed(a, Remove(name), Event(s, NOTHING, a.disk.trouble, false))
  {
    hide ZipArchive.Valid, ZipArchive.Contents, Present, Traced, ItemsFor, Position, Find, Preflight;
    NowPresent(a);
    PositionIs(a.disk.files, a.path, a.entries, name);
    ghost var m := Now(a);
    s := a.Delete(name);
    NowPresent(a);
    TracedNothing(KindOf(a), Event(s, NOTHING, a.disk.trouble, false), m, Now(a), a.disk.log);
  }

  method DoRename(a: ZipArchive, name: seq<byte>, newName: seq<byte>) returns (s: Status)
    requires a.Valid()
    modifies a`entries, a`dirty
    ensures Followed(a, Rename(name, newName), Event(s, NOTHING, a.disk.trouble, false))
  {
    hide ZipArchive.Valid, ZipArchive.Contents, Present, Traced, ItemsFor, Position, Find, Preflight;
    NowPresent(a);
    PositionIs(a.disk.files, a.path, a.entries, name);
    ghost var m := Now(a);
    s := a.Rename(name, newName);
    NowPresent(a);
    TracedNothing(KindOf(a), Event(s, NOTHING, a.disk.trouble, false), m, Now(a), a.disk.log);
  }

  method DoCopy(a: ZipArchive, name: seq<byte>, copyName: seq<byte>) returns (s: Status)
    requires a.Valid()
    modifies a`entries, a`dirty, a.disk`trouble
    ensures Followed(a, CopyAs(name, copyName), Event(s, NOTHING, a.disk.trouble, false))
  {
    hide ZipArchive.Valid, ZipArchive.Contents, Present, Traced, ItemsFor, Position, Find, Preflight;
    NowPresent(a);
    PositionIs(a.disk.files, a.path, a.entries, name);
    ghost var m := Now(a);
    s := a.Copy(name, copyName);
    NowPresent(a);
    TracedNothing(KindOf(a), Event(s, NOTHING, a.disk.trouble, false), m, Now(a), a.disk.log);
  }

  method Step(a: ZipArchive, c: Command) returns (s: Status, ghost e: Event<ZipItem>)
    requires a.Valid()
    modifies a`entries, a`cdrOffset, a`fileSize, a`dirty, a`fp, a.disk
    ensures e.status == s && Followed(a, c, e)
  {
    hide ZipArchive.Valid, Followed;
    ghost var item, published := NOTHING, false;
    match c {
      case AddBytes(_, _) =>
        s, item := DoAdd(a, c);
      case AddFrom(_, _) =>
        s, item := DoAdd(a, c);
      case Remove(name) =>
        s := DoRemove(a, name);
      case Rename(name, newName) =>
        s := DoRename(a, name, newName);
      case CopyAs(name, copyName) =>
        s := DoCopy(a, name, copyName);
      case Save =>
        s, published := CommitNow(a);
    }
    e := Event(s, item, a.disk.trouble, published);
  }

  // ----- Many commands -----

  /** A command whose calls may fail, whatever has failed before it. */
  method Turn(a: ZipArchive, c: Command) returns (s: Status, ghost e: Event<ZipItem>)
    requires a.Valid()
    modifies a`entries, a`cdrOffset, a`fileSize, a`dirty, a`fp, a.disk, a.disk.ledger
    ensures e.status == s && a.Valid() && old(a.disk.log) <= a.disk.log && KindOf(a) == old(KindOf(a))
    ensures Moves(KindOf(a), c, e, old(Now(a)), Now(a), a.disk.log)
    ensures HandleKept(c, e.failed, old(Now(a)).open, Now(a).open)
    ensures a.disk.Troubles() == old(a.disk.Troubles()) + if e.failed then 1 else 0
  {
    hide ZipArchive.Valid, Moves, HandleKept;
    a.disk.Forget();
    s, e := Step(a, c);
  }

  /** The next command of a course. */
  method Advance(a: ZipArchive, c: Command, ghost commands: seq<Command>, ghost h: Course)
    returns (s: Status, ghost e: Event<ZipItem>, ghost further: Course)
    requires a.Valid() && h.Fits(commands) && |h.events| < |commands| && c == commands[|h.events|]
    requires Led(KindOf(a), commands, h, a.disk.log) && KeptOpen(commands, h, |h.events|) && h.Last() == Now(a)
    modifies a`entries, a`cdrOffset, a`fileSize, a`dirty, a`fp, a.disk, a.disk.ledger
    ensures a.Valid() && old(a.disk.log) <= a.disk.log && KindOf(a) == old(KindOf(a))
    ensures Led(KindOf(a), commands, further, a.disk.log) && KeptOpen(commands, further, |further.events|)
    ensures e.status == s && further == h.Then(e, Now(a))
    ensures a.disk.Troubles() - old(a.disk.Troubles()) == Failures(further.events) - Failures(h.events)
  {
    hide ZipArchive.Valid, Moves, Present, Led, HandleKept, KeptOpen, Disk.Troubles;
    s, e := Turn(a, c);
    further := h.Then(e, Now(a));
    OneMore(KindOf(a), commands, h, old(a.disk.log), e, Now(a), a.disk.log);
    OneMoreOpen(commands, h, e, Now(a));
    FailuresMore(h.events, e);
  }

  /** Any commands, one after the other, whatever becomes of each of them. The course that the archive takes is
      on record, from the moment it is in to the one it gets to, and no more commands are said to have met a
      failed call than have. */
  method Run(a: ZipArchive, commands: seq<Command>) returns (statuses: seq<Status>, ghost h: Course)
    requires a.Valid()
    modifies a`entries, a`cdrOffset, a`fileSize, a`dirty, a`fp, a.disk, a.disk.ledger
    ensures a.Valid() && old(a.disk.log) <= a.disk.log && KindOf(a) == old(KindOf(a))
    ensures Led(KindOf(a), commands, h, a.disk.log) && KeptOpen(commands, h, |h.events|)
    ensures |h.events| == |commands| && statuses == Statuses(h.events)
    ensures h.moments[0] == old(Now(a)) && h.Last() == Now(a)
    ensures Failures(h.events) == a.disk.Troubles() - old(a.disk.Troubles())
  {
    hide ZipArchive.Valid, Led, KeptOpen, Disk.Troubles, Present;
    NowPresent(a);
    h := History([], [Now(a)]);
    Starts(KindOf(a), commands, Now(a), a.disk.log);
    statuses := [];
    for i := 0 to |commands|
      invariant a.Valid() && old(a.disk.log) <= a.disk.log && KindOf(a) == old(KindOf(a))
      invariant h.Fits(commands) && Led(KindOf(a), commands, h, a.disk.log) && KeptOpen(commands, h, |h.events|)
      invariant |h.events| == i && statuses == Statuses(h.events)
      invariant h.moments[0] == old(Now(a)) && h.Last() == Now(a)
      invariant Failures(h.events) == a.disk.Troubles() - old(a.disk.Troubles())
    {
      var s;
      ghost var e;
      s, e, h := Advance(a, commands[i], commands, h);
      statuses := statuses + [s];
    }
  }
}
