/** Whole sessions with a ZIP file: it is opened, any commands are carried out, and the archive is closed. */
module ZipSessions {
  import opened Outcomes
  import opened Commands
  import opened Deflate
  import opened ZipCommitting
  import opened ZipMeanings
  import opened ZipArchives
  import opened ZipCourses
  import opened ZipClosing
  import opened ZipOpening
  import opened ZipRuns
  import opened Disks
  import PakFormat
  import PakLifecycle

  /** An archive that has just been opened: it differs from its file in nothing. */
  ghost predicate Fresh(k: Kind, m: Moment, files: Files, log: seq<Files>, open: bool) {
    && Present(k, m, log) && m.time == |log| && m.files == files && m.open == open && !m.dirty
  }

  /** What a session does to a file that opens: its course is that of the commands and of a commit, which is what
      closing is. It begins with the file as it was and ends with the file as it is. */
  ghost predicate Carried(k: Kind, commands: seq<Command>, h: Course, files0: Files, log0: seq<Files>, files1: Files,
                          log1: seq<Files>, open: bool)
  {
    && log0 <= log1 && Led(k, commands + [Save], h, log1) && |h.events| == |commands| + 1
    && KeptOpen(commands + [Save], h, |commands|)
    && Fresh(k, h.moments[0], files0, log0, open)
    && h.Last().files == files1 && h.Last().time == |log1|
  }

  /** The file has stood for some items. If closing succeeded it stands for what the commands have made of them,
      and if not, it does so or is the file from before closing. */
  ghost predicate Outcome(k: Kind, commands: seq<Command>, h: Course, files0: Files, files1: Files)
    requires |h.moments| == |h.events| + 1 && |h.events| == |commands| + 1
  {
    var n, items := |commands|, Held(k, h.moments[0]);
    && k.path in files0 && ZipMeans(files0[k.path], items)
    && k.path in h.moments[n].files && k.path in files1
    && (ZipMeans(files1[k.path], Replay(items, commands + [Save], h.events, n))
        || (h.events[n].status != Ok && files1[k.path] == h.moments[n].files[k.path]))
  }

  lemma WhatBecomesOfIt(k: Kind, commands: seq<Command>, h: Course, files0: Files, log0: seq<Files>, files1: Files,
                        log1: seq<Files>, open: bool)
    requires Carried(k, commands, h, files0, log0, files1, log1, open)
    ensures Outcome(k, commands, h, files0, files1)
  {
    hide Moves, ZipMeans, Held, ZipSound;
    var n := |commands|;
    PresentAt(k, commands + [Save], h, log1, 0);
    PresentAt(k, commands + [Save], h, log1, n);
    PresentAt(k, commands + [Save], h, log1, n + 1);
    Replayed(k, commands + [Save], h, log1, n);
    assert Moves(k, Save, h.events[n], h.moments[n], h.moments[n + 1], log1);
    Ends(k, h.events[n], h.moments[n], h.moments[n + 1], log1);
    Leaves(k, h.events[n], h.moments[n], h.moments[n + 1], log1);
  }

  /** The file that a commit leaves. */
  lemma Leaves(k: Kind, e: Event<ZipItem>, m: Moment, m': Moment, log: seq<Files>)
    requires Moves(k, Save, e, m, m', log)
    ensures k.path in m.files && k.path in m'.files
    ensures m'.files[k.path] == m.files[k.path] || ZipMeans(m'.files[k.path], Held(k, m'))
  {
    hide Present, Held, Suits, Verdict, ZipMeans;
  }

  /** Opens a ZIP archive and says whether adds are to compress; what has failed before counts for nothing. */
  method Begin(disk: Disk, path: Path, codec: Codec, hint: PakFormat.Hint, mode: PakLifecycle.Mode, deflates: bool)
    returns (r: Result<ZipArchive>)
    requires disk.Valid() && Lossless(codec)
    modifies disk`cursors, disk`next, disk`trouble, disk.ledger
    ensures disk.Valid() && old(disk.Troubles()) <= disk.Troubles() && r != Failure(Ok)
    ensures r.Failure? ==> disk.trouble || (path in disk.files && LoadZip(disk.files[path], hint) == Failure(r.status))
    ensures r.Success? ==>
      var a := r.value;
      && a.Valid() && fresh(a) && a.disk == disk && KindOf(a) == Kind(path, codec, deflates)
      && Fresh(KindOf(a), Now(a), disk.files, disk.log, mode != PakLifecycle.Read)
  {
    hide ZipMeans, ZipSound, Present, LoadZip, Lossless;
    disk.Forget();
    r := OpenZip(disk, path, codec, hint, mode);
    if r.Success? {
      r.value.deflates := deflates;
      NowPresent(r.value);
    }
  }

  /** Closes an archive; what has failed before counts for nothing. */
  method Finish(a: ZipArchive) returns (s: Status, ghost e: Event<ZipItem>, ghost after: Moment)
    requires a.Valid()
    modifies a`entries, a`cdrOffset, a`fileSize, a`dirty, a`fp, a.disk, a.disk.ledger
    ensures a.disk.Valid() && old(a.disk.log) <= a.disk.log
    ensures Moves(old(KindOf(a)), Save, e, old(Now(a)), after, a.disk.log)
    ensures e.status == s && a.disk.files == after.files && |a.disk.log| == after.time
    ensures old(a.disk.Troubles()) + (if e.failed then 1 else 0) <= a.disk.Troubles()
  {
    hide ZipArchive.Valid, ZipArchive.Contents, ZipMeans, Moves;
    a.disk.Forget();
    s, e, after := CloseZip(a);
  }

  /** A course goes on to the commit that closing makes. */
  lemma GoesOn(k: Kind, commands: seq<Command>, h: Course, log: seq<Files>, e: Event<ZipItem>, m: Moment,
               more: seq<Files>)
    requires |h.events| == |commands| && Led(k, commands, h, log) && KeptOpen(commands, h, |commands|)
    requires log <= more && Moves(k, Save, e, h.Last(), m, more)
    ensures h.Then(e, m).Fits(commands + [Save]) && h.Then(e, m).moments[0] == h.moments[0]
    ensures Led(k, commands + [Save], h.Then(e, m), more)
    ensures KeptOpen(commands + [Save], h.Then(e, m), |commands|)
    ensures Failures(h.Then(e, m).events) == Failures(h.events) + if e.failed then 1 else 0
  {
    hide Moves, Present, HandleKept;
    MoreToCome(k, commands, commands + [Save], h, log);
    OneMore(k, commands + [Save], h, log, e, m, more);
    FailuresMore(h.events, e);
  }

  /** Opens the file, carries out the commands and closes the archive. */
  method Session(disk: Disk, path: Path, codec: Codec, hint: PakFormat.Hint, mode: PakLifecycle.Mode, deflates: bool,
                 commands: seq<Command>)
    returns (start: Status, statuses: seq<Status>, closed: Status, ghost h: Course)
    requires disk.Valid() && Lossless(codec)
    modifies disk, disk.ledger
    ensures disk.Valid()
    ensures start != Ok ==> disk.trouble || (path in disk.files && LoadZip(disk.files[path], hint) == Failure(start))
    ensures start != Ok ==> disk.files == old(disk.files) && disk.log == old(disk.log)
    ensures start == Ok ==>
      var k := Kind(path, codec, deflates);
      && Carried(k, commands, h, old(disk.files), old(disk.log), disk.files, disk.log, mode != PakLifecycle.Read)
      && Outcome(k, commands, h, old(disk.files), disk.files)
      && statuses + [closed] == Statuses(h.events)
      && Failures(h.events) <= disk.Troubles() - old(disk.Troubles())
  {
    hide ZipArchive.Valid, ZipMeans, Moves, Led, Present, KeptOpen, LoadZip, Lossless, Disk.Troubles, Outcome, Failures;
    statuses, closed, h := [], Ok, History([], []);
    var r := Begin(disk, path, codec, hint, mode, deflates);
    if r.Failure? { return r.status, statuses, closed, h; }
    var a := r.value;
    start := Ok;
    ghost var k := KindOf(a);
    statuses, h := Run(a, commands);
    ghost var log, e, after := disk.log, Event(Ok, NOTHING, false, false), Now(a);
    closed, e, after := Finish(a);
    GoesOn(k, commands, h, log, e, after, disk.log);
    h := h.Then(e, after);
    WhatBecomesOfIt(k, commands, h, old(disk.files), old(disk.log), disk.files, disk.log, mode != PakLifecycle.Read);
  }
}
