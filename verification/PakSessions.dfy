/** Whole sessions: a file is opened, any commands are carried out, and the archive is closed. */
module PakSessions {
  import opened Outcomes
  import opened PakFormat
  import opened PakStates
  import opened PakArchives
  import opened PakLimits
  import opened PakCourses
  import opened PakLifecycle
  import opened PakRuns
  import opened Commands
  import opened EntryLists
  import opened Disks

  /** An archive that has just been opened: it differs from its file in nothing. */
  ghost predicate Fresh(k: Kind, m: Moment, files: Files, log: seq<Files>, open: bool) {
    && Present(k, m, log) && m.time == |log| && m.files == files
    && m.open == open && !m.dirty && !m.torn && m.rebuild == k.atomic
  }

  /** What a session does to a file that opens: its course is that of the commands and of a commit, which is what
      closing is. It begins with the file as it was and ends with the file as it is. */
  ghost predicate Carried(k: Kind, commands: seq<Command>, h: Course, files0: Files, log0: seq<Files>, files1: Files,
                          log1: seq<Files>, open: bool)
  {
    && log0 <= log1 && Led(k, commands + [Save], h, log1) && |h.events| == |commands| + 1
    && KeptOpen(commands + [Save], h, |commands|)
    && Fresh(k, h.moments[0], files0, log0, open)
    && h.Last().files == files1 && h.Last().time == |log1|
  }

  /** The file has stood for some items, and stands for what the commands have made of them if closing succeeded
      and, outside atomic mode, had something to commit or no command has reported an input or output error. */
  ghost predicate Outcome(k: Kind, commands: seq<Command>, h: Course, files0: Files, files1: Files)
    requires |h.moments| == |h.events| + 1 && |h.events| == |commands| + 1
  {
    var n, items := |commands|, Held(k, h.moments[0]);
    && k.path in files0 && Means(files0[k.path], k.format, items)
    && k.path in files1
    && ((h.events[n].status == Ok
         && (k.atomic || h.moments[n].dirty || forall i :: 0 <= i < n ==> h.events[i].status != IoError)) ==>
          Means(files1[k.path], k.format, Replay(items, commands + [Save], h.events, n)))
  }

  lemma WhatBecomesOfIt(k: Kind, commands: seq<Command>, h: Course, files0: Files, log0: seq<Files>, files1: Files,
                        log1: seq<Files>, open: bool)
    requires Carried(k, commands, h, files0, log0, files1, log1, open)
    ensures Outcome(k, commands, h, files0, files1)
  {
    hide Moves, Means, Held, Sound;
    var n := |commands|;
    InPlace(k, commands + [Save], h, log1, 0);
    InPlace(k, commands + [Save], h, log1, n + 1);
    PresentAt(k, commands + [Save], h, log1, n + 1);
    Replayed(k, commands + [Save], h, log1, n);
    UntornUntil(k, commands + [Save], h, log1, n);
    assert Moves(k, Save, h.events[n], h.moments[n], h.moments[n + 1], log1);
    if h.events[n].status == Ok { Closes(k, h.events[n], h.moments[n], h.moments[n + 1], log1); }
  }

  /** What the commit that closing makes leaves behind. */
  lemma Closes(k: Kind, e: Event<Item>, m: Moment, m': Moment, log: seq<Files>)
    requires Moves(k, Save, e, m, m', log) && e.status == Ok
    ensures Held(k, m') == Held(k, m) && !m'.dirty && (m'.torn ==> m.torn && !m.dirty)
  {
    hide Present, Held, Traced, Suits, Verdict;
  }

  /** Opens an archive; what has failed before counts for nothing. */
  method Begin(disk: Disk, path: Path, hint: Hint, mode: Mode) returns (r: Result<Archive>)
    requires disk.Valid()
    modifies disk`cursors, disk`next, disk`trouble, disk.ledger
    ensures disk.Valid() && old(disk.Troubles()) <= disk.Troubles() && r != Failure(Ok)
    ensures r.Failure? ==> disk.trouble || (path in disk.files && Load(disk.files[path], hint) == Failure(r.status))
    ensures r.Success? ==>
      var a := r.value;
      && a.Valid() && fresh(a) && fresh(a.list) && a.disk == disk && a.newPath.None?
      && a.path == path && a.atomic == (mode == ReadWriteAtomic) && (hint.As? ==> a.format == hint.format)
      && Fresh(KindOf(a), Now(a), disk.files, disk.log, mode != Read)
    ensures r.Success? ==> forall i :: 0 <= i < |r.value.list.nodes| ==> fresh(r.value.list.nodes[i])
  {
    hide Archive.Valid, Archive.Contents, Means, Present, OpensAs, Load, EntryList.Rows;
    disk.Forget();
    r := OpenArchive(disk, path, hint, mode);
    if r.Success? {
      NowPresent(r.value);
      NothingPending(r.value);
    }
  }

  /** Closes an archive; what has failed before counts for nothing. */
  method Finish(a: Archive) returns (s: Status, ghost e: Event<Item>, ghost after: Moment)
    requires a.Valid() && a.newPath.None?
    modifies a, a.list.nodes`row, a.disk, a.disk.ledger
    ensures a.disk.Valid() && old(a.disk.log) <= a.disk.log
    ensures Moves(KindOf(a), Save, e, old(Now(a)), after, a.disk.log)
    ensures e.status == s && a.disk.files == after.files && |a.disk.log| == after.time
    ensures old(a.disk.Troubles()) + (if e.failed then 1 else 0) <= a.disk.Troubles()
  {
    hide Archive.Valid, Archive.Contents, Archive.Intact, Means, Moves, Items, Uncommittable, EntryList.Rows, Closed;
    a.disk.Forget();
    s, e, after := CloseArchive(a);
  }

  /** A course goes on to the commit that closing makes. */
  lemma GoesOn(k: Kind, commands: seq<Command>, h: Course, log: seq<Files>, e: Event<Item>, m: Moment, more: seq<Files>)
    requires |h.events| == |commands| && Led(k, commands, h, log) && KeptOpen(commands, h, |commands|)
    requires log <= more && Moves(k, Save, e, h.Last(), m, more)
    ensures h.Then(e, m).Fits(commands + [Save]) && h.Then(e, m).moments[0] == h.moments[0]
    ensures Led(k, commands + [Save], h.Then(e, m), more)
    ensures KeptOpen(commands + [Save], h.Then(e, m), |commands|)
    ensures Failures(h.Then(e, m).events) == Failures(h.events) + if e.failed then 1 else 0
  {
    hide Moves, Present, HandleKept;
    MoreToCome(k, commands, commands + [Save], h, log);
    OneMore(k, commands + [Save], h, log, e, m, more);
    FailuresMore(h.events, e);
  }

  /** Opens the file, carries out the commands and closes the archive. */
  method Session(disk: Disk, path: Path, hint: Hint, mode: Mode, commands: seq<Command>)
    returns (start: Status, statuses: seq<Status>, closed: Status, ghost k: Kind, ghost h: Course)
    requires disk.Valid() && forall c <- commands :: Sensible(c, path)
    modifies disk, disk.ledger
    ensures disk.Valid()
    ensures start != Ok ==> disk.trouble || (path in disk.files && Load(disk.files[path], hint) == Failure(start))
    ensures start != Ok ==> disk.files == old(disk.files) && disk.log == old(disk.log)
    ensures start == Ok ==>
      && k.path == path && k.atomic == (mode == ReadWriteAtomic) && (hint.As? ==> k.format == hint.format)
      && Carried(k, commands, h, old(disk.files), old(disk.log), disk.files, disk.log, mode != Read)
      && Outcome(k, commands, h, old(disk.files), disk.files)
      && statuses + [closed] == Statuses(h.events)
      && Failures(h.events) <= disk.Troubles() - old(disk.Troubles())
  {
    hide Archive.Valid, Archive.Contents, Means, Moves, Led, Present, KeptOpen, Sensible, Load, EntryList.Rows,
      Disk.Troubles, Outcome, Failures;
    statuses, closed := [], Ok;
    k, h := Kind(Pak, path, false), History([], []);
    var r := Begin(disk, path, hint, mode);
    if r.Failure? { return r.status, statuses, closed, k, h; }
    var a := r.value;
    start, k := Ok, KindOf(a);
    statuses, h := Run(a, commands);
    ghost var log, e, after := disk.log, Event(Ok, NOTHING, false, false), Now(a);
    closed, e, after := Finish(a);
    GoesOn(k, commands, h, log, e, after, disk.log);
    h := h.Then(e, after);
    WhatBecomesOfIt(k, commands, h, old(disk.files), old(disk.log), disk.files, disk.log, mode != Read);
  }
}
