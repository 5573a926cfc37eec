/** Whole runs: any commands in any order, each of which may fail at any point. */
module PakRuns {
  import opened ByteStrings
  import opened Outcomes
  import opened PakFormat
  import opened PakDirectories
  import opened PakStates
  import opened PakCopying
  import opened PakRebuilding
  import opened PakArchives
  import opened PakCourses
  import opened PakLifecycle
  import opened EntryLists
  import opened Commands
  import opened Disks
  import PakPacking
  import DkCodec

  /** The contract of adding a file, once its name is accepted, leaves only how adding its content can end. */
  lemma FileSettled(s: Status, fmt: Format, rows: seq<Row>, atomic: bool, content: seq<byte>, name: seq<byte>,
                    item: Item, end: nat, trouble: bool)
    requires FileVerdict(s, fmt, atomic, content, name, item, end, trouble) && Preflight(fmt, rows, name) == Ok
    ensures AddEnds(s, fmt, rows, name, content, true, atomic, end, trouble)
  {
    hide Preflight, DkCodec.Encode;
  }

  // ----- One command -----

  /** What an add leaves in the log. */
  lemma TracedAdd(a: Archive, c: Command, e: Event<Item>, m: Moment, m': Moment, log0: seq<Files>, log: seq<Files>,
                  body: seq<byte>, left: seq<byte>)
    requires Present(KindOf(a), m, log0) && m.time == |log0| && m'.time == |log| && c != Save && !e.published
    requires Poured(m.files, log0, m'.files, log, a.path, m.end, body, left)
    requires if a.atomic then m'.files == m.files && log == log0 else !AnyStaged(m.rows)
    ensures log0 <= log && Traced(KindOf(a), c, e, m, m', log)
  {
    hide Means, Sound, AnyStaged, Poured, AllOrNothing, Items, Confined;
    SoundEnd(a.format, m.rows, m.end, m.files, a.path);
    PouredIsConfined(m.files, log0, m'.files, log, a.path, m.end, body, left);
    if a.atomic {
      NothingHappened(m.files, log0, a.path);
      TracedWhole(KindOf(a), c, e, m, m', log0, log);
    } else {
      TracedBehind(KindOf(a), c, e, m, m', log0, log);
    }
  }

  /** A command that touches no file leaves nothing there. */
  lemma TracedNothing(k: Kind, c: Command, e: Event<Item>, m: Moment, m': Moment, log: seq<Files>)
    requires Present(k, m, log) && m.time == m'.time == |log| && m'.files == m.files && c != Save && !e.published
    ensures Traced(k, c, e, m, m', log)
  {
    hide Means, Sound, AllOrNothing, Items;
    SoundEnd(k.format, m.rows, m.end, m.files, k.path);
    NothingHappened(m.files, log, k.path);
    assert log[..|log|] == log;
  }

  lemma PlainStagesNothing(a: Archive)
    requires a.Valid()
    ensures !a.atomic ==> !AnyStaged(a.list.Rows())
  {
    hide Sound, Filed, Below, EntryList.ListValid, AnyStaged;
  }

  /** What an add guarantees, as far as it can be told without the log. */
  twostate predicate Put(a: Archive, c: Command, e: Event<Item>, left: seq<byte>)
    reads a, a.disk, a.list, a.list.nodes
  {
    && a.Valid() && (old(a.disk.trouble) ==> a.disk.trouble) && e.failed == a.disk.trouble && !e.published
    && (forall i :: 0 <= i < |a.list.nodes| ==> a.list.nodes[i] in old(a.list.nodes) || fresh(a.list.nodes[i]))
    && a.Contents() == (if e.status == Ok then old(a.Contents()) + [e.added] else old(a.Contents()))
    && (e.status == Ok ==> Suits(c, e.added, old(a.disk.files)))
    && Verdict(KindOf(a), c, e.status, old(Now(a)), e.failed)
    && Noted(KindOf(a), c, e, old(Now(a)), Now(a)) && Now(a).open == old(Now(a)).open
    && Poured(old(a.disk.files), old(a.disk.log), a.disk.files, a.disk.log, a.path, old(a.payloadEnd), e.added.body,
              left)
    && (a.atomic ==> a.disk.files == old(a.disk.files) && a.disk.log == old(a.disk.log))
  }

  method PutBytes(a: Archive, name: seq<byte>, data: seq<byte>)
    returns (s: Status, ghost item: Item, ghost left: seq<byte>)
    requires a.Valid() && 0 !in name
    modifies a`dirty, a`needsRebuild, a`payloadEnd, a`torn, a.list, a.list.nodes, a.disk
    ensures Put(a, AddBytes(name, data), Event(s, item, a.disk.trouble, false), left)
  {
    hide Archive.Valid, Archive.Contents, Archive.Intact, Items, Item.Denotes, Poured, Preflight, AddVerdict,
      PakPacking.Stores, EntryList.Rows;
    ghost var m := Now(a);
    s, item, left := a.AddMemory(name, data);
    AddSettled(s, a.format, m.rows, name, data, m.open, a.atomic, m.end, item, a.disk.trouble);
  }

  method PutFrom(a: Archive, name: seq<byte>, source: Path)
    returns (s: Status, ghost item: Item, ghost left: seq<byte>)
    requires a.Valid() && 0 !in name && source != a.path
    modifies a`dirty, a`needsRebuild, a`payloadEnd, a`torn, a.list, a.list.nodes, a.disk
    ensures Put(a, AddFrom(name, source), Event(s, item, a.disk.trouble, false), left)
  {
    hide Archive.Valid, Archive.Contents, Archive.Intact, Items, Item.Denotes, Poured, Preflight, FileVerdict,
      EntryList.Rows;
    ghost var m := Now(a);
    s, item, left := a.AddFile(name, source);
    if m.open && Preflight(a.format, m.rows, name) == Ok && source in m.files {
      FileSettled(s, a.format, m.rows, a.atomic, m.files[source], name, item, m.end, a.disk.trouble);
    }
  }

  method DoAdd(a: Archive, c: Command) returns (s: Status, ghost item: Item)
    requires a.Valid() && Sensible(c, a.path) && (c.AddBytes? || c.AddFrom?)
    modifies a`dirty, a`needsRebuild, a`payloadEnd, a`torn, a.list, a.list.nodes, a.disk
    ensures Followed(a, c, Event(s, item, a.disk.trouble, false))
  {
    hide Archive.Valid, Archive.Contents, Archive.Intact, Present, Traced, Items, Means, Poured, EntryList.Rows,
      AnyStaged,
      Noted, Suits, Verdict;
    NowPresent(a);
    PlainStagesNothing(a);
    ghost var m, log0, left := Now(a), a.disk.log, [];
    if c.AddBytes? {
      s, item, left := PutBytes(a, c.name, c.data);
    } else {
      s, item, left := PutFrom(a, c.name, c.source);
    }
    NowPresent(a);
    TracedAdd(a, c, Event(s, item, a.disk.trouble, false), m, Now(a), log0, a.disk.log, item.body, left);
  }

  method DoRemove(a: Archive, name: seq<byte>) returns (s: Status)
    requires a.Valid()
    modifies a`dirty, a`needsRebuild, a.list, a.list.nodes
    ensures Followed(a, Remove(name), Event(s, NOTHING, a.disk.trouble, false))
  {
    hide Archive.Valid, Archive.Contents, Archive.Intact, Present, Traced, Items, Means, Position, IndexOf, Preflight,
      EntryList.Rows;
    NowPresent(a);
    PositionIs(a.disk.files, a.path, a.list.Rows(), name);
    ghost var m := Now(a);
    s := a.Delete(name);
    NowPresent(a);
    TracedNothing(KindOf(a), Remove(name), Event(s, NOTHING, a.disk.trouble, false), m, Now(a), a.disk.log);
  }

  method DoRename(a: Archive, name: seq<byte>, newName: seq<byte>) returns (s: Status)
    requires a.Valid() && 0 !in newName
    modifies a`dirty, a.list.nodes
    ensures Followed(a, Rename(name, newName), Event(s, NOTHING, a.disk.trouble, false))
  {
    hide Archive.Valid, Archive.Contents, Archive.Intact, Present, Traced, Items, Means, Position, IndexOf, Preflight,
      EntryList.Rows;
    NowPresent(a);
    PositionIs(a.disk.files, a.path, a.list.Rows(), name);
    ghost var m := Now(a);
    s := a.Rename(name, newName);
    NowPresent(a);
    TracedNothing(KindOf(a), Rename(name, newName), Event(s, NOTHING, a.disk.trouble, false), m, Now(a), a.disk.log);
  }

  method DoCopy(a: Archive, name: seq<byte>, copyName: seq<byte>) returns (s: Status)
    requires a.Valid() && 0 !in copyName
    modifies a`dirty, a`needsRebuild, a.list, a.list.nodes, a.disk`trouble
    ensures Followed(a, CopyAs(name, copyName), Event(s, NOTHING, a.disk.trouble, false))
  {
    hide Archive.Valid, Archive.Contents, Archive.Intact, Present, Traced, Items, Means, Position, IndexOf, Preflight,
      EntryList.Rows;
    NowPresent(a);
    PositionIs(a.disk.files, a.path, a.list.Rows(), name);
    ghost var m := Now(a);
    s := a.Copy(name, copyName);
    NowPresent(a);
    TracedNothing(KindOf(a), CopyAs(name, copyName), Event(s, NOTHING, a.disk.trouble, false), m, Now(a), a.disk.log);
  }

  method Step(a: Archive, c: Command) returns (s: Status, ghost e: Event<Item>)
    requires a.Valid() && Sensible(c, a.path)
    modifies a, a.list, a.list.nodes, a.disk
    ensures e.status == s && Followed(a, c, e)
  {
    hide Archive.Valid, Archive.Contents, Followed;
    ghost var item, published := NOTHING, false;
    match c {
      case AddBytes(_, _) =>
        s, item := DoAdd(a, c);
      case AddFrom(_, _) =>
        s, item := DoAdd(a, c);
      case Remove(name) =>
        s := DoRemove(a, name);
      case Rename(name, newName) =>
        s := DoRename(a, name, newName);
      case CopyAs(name, copyName) =>
        s := DoCopy(a, name, copyName);
      case Save =>
        s, published := CommitNow(a);
    }
    e := Event(s, item, a.disk.trouble, published);
  }

  // ----- Many commands -----

  /** A command whose calls may fail, whatever has failed before it. */
  method Turn(a: Archive, c: Command) returns (s: Status, ghost e: Event<Item>)
    requires a.Valid() && Sensible(c, a.path)
    modifies a, a.list, a.list.nodes, a.disk, a.disk.ledger
    ensures e.status == s && a.Valid() && old(a.disk.log) <= a.disk.log
    ensures forall i :: 0 <= i < |a.list.nodes| ==> a.list.nodes[i] in old(a.list.nodes) || fresh(a.list.nodes[i])
    ensures Moves(KindOf(a), c, e, old(Now(a)), Now(a), a.disk.log)
    ensures HandleKept(c, e.failed, old(Now(a)).open, Now(a).open)
    ensures a.disk.Troubles() == old(a.disk.Troubles()) + if e.failed then 1 else 0
  {
    hide Archive.Valid, Archive.Contents, Moves, Sensible, HandleKept;
    a.disk.Forget();
    s, e := Step(a, c);
  }

  /** The next command of a course. */
  method Advance(a: Archive, c: Command, ghost commands: seq<Command>, ghost h: Course)
    returns (s: Status, ghost e: Event<Item>, ghost further: Course)
    requires a.Valid() && h.Fits(commands) && |h.events| < |commands| && c == commands[|h.events|]
    requires Sensible(c, a.path)
    requires Led(KindOf(a), commands, h, a.disk.log) && KeptOpen(commands, h, |h.events|) && h.Last() == Now(a)
    modifies a, a.list, a.list.nodes, a.disk, a.disk.ledger
    ensures a.Valid() && old(a.disk.log) <= a.disk.log
    ensures forall i :: 0 <= i < |a.list.nodes| ==> a.list.nodes[i] in old(a.list.nodes) || fresh(a.list.nodes[i])
    ensures Led(KindOf(a), commands, further, a.disk.log) && KeptOpen(commands, further, |further.events|)
    ensures e.status == s && further == h.Then(e, Now(a))
    ensures a.disk.Troubles() - old(a.disk.Troubles()) == Failures(further.events) - Failures(h.events)
  {
    hide Archive.Valid, Archive.Contents, Moves, Present, Led, HandleKept, KeptOpen, Disk.Troubles, EntryList.Rows;
    s, e := Turn(a, c);
    further := h.Then(e, Now(a));
    OneMore(KindOf(a), commands, h, old(a.disk.log), e, Now(a), a.disk.log);
    OneMoreOpen(commands, h, e, Now(a));
    FailuresMore(h.events, e);
  }

  /** Any commands, one after the other, whatever becomes of each of them. The course that the archive takes is
      on record, from the moment it is in to the one it gets to, and no more commands are said to have met a
      failed call than have. */
  method Run(a: Archive, commands: seq<Command>) returns (statuses: seq<Status>, ghost h: Course)
    requires a.Valid() && forall c <- commands :: Sensible(c, a.path)
    modifies a, a.list, a.list.nodes, a.disk, a.disk.ledger
    ensures a.Valid() && old(a.disk.log) <= a.disk.log
    ensures forall i :: 0 <= i < |a.list.nodes| ==> a.list.nodes[i] in old(a.list.nodes) || fresh(a.list.nodes[i])
    ensures Led(KindOf(a), commands, h, a.disk.log) && KeptOpen(commands, h, |h.events|)
    ensures |h.events| == |commands| && statuses == Statuses(h.events)
    ensures h.moments[0] == old(Now(a)) && h.Last() == Now(a)
    ensures Failures(h.events) == a.disk.Troubles() - old(a.disk.Troubles())
  {
    hide Archive.Valid, Archive.Contents, Led, Sensible, KeptOpen, Disk.Troubles, EntryList.Rows, Present;
    NowPresent(a);
    h := History([], [Now(a)]);
    Starts(KindOf(a), commands, Now(a), a.disk.log);
    statuses := [];
    for i := 0 to |commands|
      invariant a.Valid() && old(a.disk.log) <= a.disk.log
      invariant forall i :: 0 <= i < |a.list.nodes| ==> a.list.nodes[i] in old(a.list.nodes) || fresh(a.list.nodes[i])
      invariant h.Fits(commands) && Led(KindOf(a), commands, h, a.disk.log) && KeptOpen(commands, h, |h.events|)
      invariant |h.events| == i && statuses == Statuses(h.events)
      invariant h.moments[0] == old(Now(a)) && h.Last() == Now(a)
      invariant Failures(h.events) == a.disk.Troubles() - old(a.disk.Troubles())
    {
      var s;
      ghost var e;
      s, e, h := Advance(a, commands[i], commands, h);
      statuses := statuses + [s];
    }
  }
}
