/** What ZIP archives go through: moments, the commands between them, and what holds of every course of commands. */
module ZipCourses {
  import opened ByteStrings
  import opened Outcomes
  import opened Deflate
  import opened PakStates
  import opened PakRebuilding
  import opened ZipFormat
  import opened ZipCommitting
  import opened ZipLimits
  import opened ZipMeanings
  import opened ZipAdding
  import opened ZipArchives
  import opened Commands
  import opened Versions
  import opened Disks

  // ----- The reference: a list of items -----

  function Position(items: seq<ZipItem>, name: seq<byte>): (i: nat)
    ensures i <= |items|
  {
    if items == [] || items[0].name == name then 0 else 1 + Position(items[1..], name)
  }

  /** What a command that succeeds does to the list; `item` is what an add adds. */
  function Effect(items: seq<ZipItem>, c: Command, item: ZipItem): seq<ZipItem> {
    match c
    case AddBytes(_, _) => items + [item]
    case AddFrom(_, _) => items + [item]
    case Remove(name) =>
      var i := Position(items, name);
      if i < |items| then items[..i] + items[i + 1..] else items
    case Rename(name, newName) =>
      var i := Position(items, name);
      if i < |items| then items[i := items[i].(name := newName)] else items
    case CopyAs(name, copyName) =>
      var i := Position(items, name);
      if i < |items| then items + [items[i].(name := copyName)] else items
    case Save => items
  }

  lemma {:induction false} PositionIs(files: Files, path: Path, es: seq<Entry>, name: seq<byte>)
    ensures Position(ItemsFor(files, path, es), name) == Find(es, name)
  {
    if es != [] {
      PositionIs(files, path, es[1..], name);
      assert ItemsFor(files, path, es)[1..] == ItemsFor(files, path, es[1..]);
    }
  }

  // ----- Moments -----

  /** What an archive is, whatever it holds. */
  datatype Kind = Kind(path: Path, codec: Codec, deflates: bool)

  /** An archive between two commands: how many moments the log has, the files, the entries and where the
      directory begins, whether it can be written to, and whether it differs from its file. */
  datatype Moment = Moment(time: nat, files: Files, entries: seq<Entry>, end: nat, open: bool, dirty: bool)

  ghost function KindOf(a: ZipArchive): Kind
    reads a
  {
    Kind(a.path, a.codec, a.deflates)
  }

  ghost function Now(a: ZipArchive): Moment
    reads a, a.disk
  {
    Moment(|a.disk.log|, a.disk.files, a.entries, a.cdrOffset, a.writable && a.fp.Some?, a.dirty)
  }

  ghost function Held(k: Kind, m: Moment): seq<ZipItem> {
    ItemsFor(m.files, k.path, m.entries)
  }

  /** The moment is one of the log, its state is sound, and unless it is dirty the file stands for what it holds. */
  ghost predicate Present(k: Kind, m: Moment, log: seq<Files>) {
    && 0 < m.time <= |log| && log[m.time - 1] == m.files
    && ZipSound(m.entries, m.end, m.files, k.path)
    && (m.dirty || ZipMeans(m.files[k.path], Held(k, m)))
  }

  // ----- From one moment to the next -----

  /** An add adds what its data is made into. */
  ghost predicate Suits(k: Kind, c: Command, item: ZipItem, files: Files) {
    match c
    case AddBytes(name, data) => item == Queued(k.codec, k.deflates, name, data)
    case AddFrom(name, source) => source in files && item == Queued(k.codec, k.deflates, name, files[source])
    case _ => true
  }

  /** How a command ends. If every call works, the status is settled by what it finds; if one fails, the status is
      that of a fault or one that has its reason all the same. */
  ghost predicate Verdict(k: Kind, c: Command, s: Status, m: Moment, failed: bool) {
    match c
    case AddBytes(name, data) =>
      var verdict := AddVerdict(m.entries, name, |data|, m.open);
      s == verdict || (failed && verdict == Ok && s in {NoMemory, FormatError})
    case AddFrom(name, source) =>
      if AddVerdict(m.entries, name, 0, m.open) != Ok then s == AddVerdict(m.entries, name, 0, m.open)
      else if source !in m.files then s in {UnsafeName, IoError}
      else
        || s == AddVerdict(m.entries, name, |m.files[source]|, m.open)
        || (failed && s in {UnsafeName, IoError})
        || (failed && |m.files[source]| <= U32_MAX && s in {NoMemory, FormatError})
    case Remove(name) => s == if !m.open then InvalidArgument else if Absent(m.entries, name) then NotFound else Ok
    case Rename(name, newName) =>
      s == if !m.open then InvalidArgument else if Absent(m.entries, name) then NotFound
           else if name == newName then Ok else Preflight(m.entries, newName)
    case CopyAs(name, copyName) =>
      || (failed && s == NoMemory)
      || s == if !m.open then InvalidArgument else if Absent(m.entries, name) then NotFound
              else Preflight(m.entries, copyName)
    case Save =>
      if !m.dirty then s == Ok
      else if !m.open then s == InvalidArgument
      else if s == Ok then Saveable(m.files, m.entries)
      else (failed && s.Fault()) || Unsaveable(s, m.files, m.entries)
  }

  predicate Absent(es: seq<Entry>, name: seq<byte>) {
    Find(es, name) == |es|
  }

  /** How the state goes on. Only a commit replaces the file, and one that does leaves nothing to write; a
      command that fails leaves the entries as they were. */
  ghost predicate Noted(c: Command, e: Event<ZipItem>, m: Moment, m': Moment) {
    if c == Save then
      && m'.dirty == (m.dirty && !e.published) && (e.status == Ok ==> !m'.dirty) && (e.published ==> m.dirty && m.open)
      && (e.published || (m'.entries == m.entries && m'.end == m.end))
    else
      && !e.published && m'.files == m.files && m'.time == m.time && m'.end == m.end
      && if e.status != Ok || (c.Rename? && c.name == c.newName) then m'.entries == m.entries && m'.dirty == m.dirty
         else m'.dirty
  }

  /** The file at the moments in between is the old one or, once published, the new one, which stands for the
      archive. */
  ghost predicate Traced(k: Kind, e: Event<ZipItem>, m: Moment, m': Moment, log: seq<Files>)
    requires m.time <= m'.time <= |log|
  {
    && AllOrNothing(m.files, log[..m.time], m'.files, log[..m'.time], k.path, e.published)
    && (e.published ==> k.path in m'.files && ZipMeans(m'.files[k.path], Held(k, m')))
  }

  /** What every command guarantees, whether it succeeds or not. */
  ghost predicate Moves(k: Kind, c: Command, e: Event<ZipItem>, m: Moment, m': Moment, log: seq<Files>) {
    && Present(k, m', log) && m.time <= m'.time
    && Held(k, m') == (if e.status == Ok then Effect(Held(k, m), c, e.added) else Held(k, m))
    && (e.status == Ok ==> Suits(k, c, e.added, m.files))
    && Verdict(k, c, e.status, m, e.failed)
    && Noted(c, e, m, m') && Traced(k, e, m, m', log)
  }

  /** What comes of a command that adds nothing. */
  const NOTHING: ZipItem := ZipItem([], 0, 0, 0, [])

  /** The command has taken the archive from what it was to what it is. */
  twostate predicate Followed(a: ZipArchive, c: Command, e: Event<ZipItem>)
    reads a, a.disk
  {
    && a.Valid() && (old(a.disk.trouble) ==> a.disk.trouble) && e.failed == a.disk.trouble
    && old(a.disk.log) <= a.disk.log && KindOf(a) == old(KindOf(a))
    && Moves(KindOf(a), c, e, old(Now(a)), Now(a), a.disk.log)
    && HandleKept(c, e.failed, old(Now(a)).open, Now(a).open)
  }

  /** A replacement of the file as a whole, told by the positions in the log. */
  lemma TracedWhole(k: Kind, e: Event<ZipItem>, m: Moment, m': Moment, log0: seq<Files>, log: seq<Files>)
    requires m.time == |log0| && m'.time == |log|
    requires AllOrNothing(m.files, log0, m'.files, log, k.path, e.published)
    requires e.published ==> k.path in m'.files && ZipMeans(m'.files[k.path], Held(k, m'))
    ensures log0 <= log && Traced(k, e, m, m', log)
  {
    hide ZipMeans, Held, OldOrNew, Kept;
    assert log[..|log0|] == log0 && log[..|log|] == log;
  }

  /** A command that touches no file leaves nothing there. */
  lemma TracedNothing(k: Kind, e: Event<ZipItem>, m: Moment, m': Moment, log: seq<Files>)
    requires Present(k, m, log) && m.time == m'.time == |log| && m'.files == m.files && !e.published
    ensures Traced(k, e, m, m', log)
  {
    hide ZipMeans, Held, AllOrNothing, EntrySound;
    NothingHappened(m.files, log, k.path);
    assert log[..|log|] == log;
  }

  lemma NowPresent(a: ZipArchive)
    requires a.Valid()
    ensures Present(KindOf(a), Now(a), a.disk.log) && a.Contents() == Held(KindOf(a), Now(a))
    ensures a.path in a.disk.files && (!a.dirty ==> ZipMeans(a.disk.files[a.path], a.Contents()))
  {
    hide ZipMeans, Lossless, EntrySound;
    assert a.disk.log[|a.disk.log| - 1] == a.disk.files;
  }

  // ----- Courses -----

  type Course = History<ZipItem, Moment>

  /** Every command led from the moment before it to the one after it. */
  ghost predicate Led(k: Kind, commands: seq<Command>, h: Course, log: seq<Files>) {
    && h.Fits(commands) && Present(k, h.moments[0], log)
    && forall i :: 0 <= i < |h.events| ==> Moves(k, commands[i], h.events[i], h.moments[i], h.moments[i + 1], log)
  }

  /** During the first n commands the archive has been as open as they allow. */
  ghost predicate KeptOpen(commands: seq<Command>, h: Course, n: nat)
    requires h.Fits(commands) && n <= |h.events|
  {
    forall i :: 0 <= i < n ==>
      HandleKept(commands[i], h.events[i].failed, h.moments[i].open, h.moments[i + 1].open)
  }

  lemma MovesStay(k: Kind, c: Command, e: Event<ZipItem>, m: Moment, m': Moment, log: seq<Files>, more: seq<Files>)
    requires Moves(k, c, e, m, m', log) && log <= more
    ensures Moves(k, c, e, m, m', more)
  {
    hide Verdict, Noted, Suits, Effect, ZipMeans, ItemsFor, ZipSound, AllOrNothing;
    assert more[..m.time] == log[..m.time] && more[..m'.time] == log[..m'.time];
  }

  lemma PresentStays(k: Kind, m: Moment, log: seq<Files>, more: seq<Files>)
    requires Present(k, m, log) && log <= more
    ensures Present(k, m, more)
  {
    hide ZipMeans, ItemsFor, ZipSound;
  }

  lemma Starts(k: Kind, commands: seq<Command>, m: Moment, log: seq<Files>)
    requires Present(k, m, log)
    ensures Led(k, commands, History([], [m]), log) && KeptOpen(commands, History([], [m]), 0)
  {}

  lemma OneMore(k: Kind, commands: seq<Command>, h: Course, log: seq<Files>, e: Event<ZipItem>, m: Moment,
                more: seq<Files>)
    requires Led(k, commands, h, log) && log <= more && |h.events| < |commands|
    requires Moves(k, commands[|h.events|], e, h.Last(), m, more)
    ensures Led(k, commands, h.Then(e, m), more)
  {
    hide Moves, Present;
    PresentStays(k, h.moments[0], log, more);
    forall i | 0 <= i < |h.events| ensures Moves(k, commands[i], h.events[i], h.moments[i], h.moments[i + 1], more) {
      MovesStay(k, commands[i], h.events[i], h.moments[i], h.moments[i + 1], log, more);
    }
  }

  lemma OneMoreOpen(commands: seq<Command>, h: Course, e: Event<ZipItem>, m: Moment)
    requires h.Fits(commands) && KeptOpen(commands, h, |h.events|) && |h.events| < |commands|
    requires HandleKept(commands[|h.events|], e.failed, h.Last().open, m.open)
    ensures KeptOpen(commands, h.Then(e, m), |h.events| + 1)
  {}

  lemma MoreToCome(k: Kind, commands: seq<Command>, more: seq<Command>, h: Course, log: seq<Files>)
    requires Led(k, commands, h, log) && commands <= more
    ensures Led(k, more, h, log)
    ensures KeptOpen(commands, h, |h.events|) ==> KeptOpen(more, h, |h.events|)
  {
    hide Moves, Present;
  }

  // ----- What follows for every course -----

  /** The reference list after the first n commands. */
  ghost function Replay(items: seq<ZipItem>, commands: seq<Command>, events: seq<Event<ZipItem>>, n: nat): seq<ZipItem>
    requires n <= |events| <= |commands|
  {
    if n == 0 then items
    else
      var before := Replay(items, commands, events, n - 1);
      if events[n - 1].status == Ok then Effect(before, commands[n - 1], events[n - 1].added) else before
  }

  /** After every command the archive holds the replay of those that succeeded. */
  lemma {:induction false} Replayed(k: Kind, commands: seq<Command>, h: Course, log: seq<Files>, n: nat)
    requires Led(k, commands, h, log) && n <= |h.events|
    ensures Held(k, h.moments[n]) == Replay(Held(k, h.moments[0]), commands, h.events, n)
  {
    hide Held, Effect, Present, Suits, Verdict, Noted, Traced;
    if n > 0 {
      Replayed(k, commands, h, log, n - 1);
      assert Moves(k, commands[n - 1], h.events[n - 1], h.moments[n - 1], h.moments[n], log);
    }
  }

  /** The archive is open after n commands exactly if it was before them and no commit among them, during which
      a call failed, has lost its handle; it is certainly open as long as no call fails during a commit. */
  lemma {:induction false} OpenUntil(commands: seq<Command>, h: Course, n: nat)
    requires h.Fits(commands) && n <= |h.events| && KeptOpen(commands, h, n)
    ensures h.moments[n].open ==> h.moments[0].open
    ensures (forall i :: 0 <= i < n && commands[i] == Save ==> !h.events[i].failed) ==>
              h.moments[n].open == h.moments[0].open
  {
    if n > 0 {
      OpenUntil(commands, h, n - 1);
      assert HandleKept(commands[n - 1], h.events[n - 1].failed, h.moments[n - 1].open, h.moments[n].open);
    }
  }

  /** The command under way at a moment of the log. */
  lemma {:induction false} UnderWay(k: Kind, commands: seq<Command>, h: Course, log: seq<Files>, n: nat, t: nat)
    returns (i: nat)
    requires Led(k, commands, h, log) && n <= |h.events| && h.moments[0].time <= t < h.moments[n].time
    ensures i < n && h.moments[i].time <= t < h.moments[i + 1].time
  {
    hide Moves, Present;
    if t >= h.moments[n - 1].time {
      i := n - 1;
    } else {
      i := UnderWay(k, commands, h, log, n - 1, t);
    }
  }

  /** The file is the one from before the command under way, or already one that stands for the archive after it. */
  ghost predicate Safe(k: Kind, now: Files, m: Moment, m': Moment) {
    && k.path in m.files && k.path in now
    && (now[k.path] == m.files[k.path] || ZipMeans(now[k.path], Held(k, m')))
  }

  lemma SafeDuring(k: Kind, c: Command, e: Event<ZipItem>, m: Moment, m': Moment, log: seq<Files>, t: nat)
    requires Present(k, m, log) && Moves(k, c, e, m, m', log) && m.time <= t < m'.time
    ensures Safe(k, log[t], m, m')
  {
    hide ZipMeans, ZipSound, Held, Effect, Suits, Verdict, Noted, Kept;
    assert log[..m'.time][t] == log[t];
    assert OldOrNew(m.files, log[t], m'.files, k.path, e.published);
  }

  /** At every moment of a course, whatever fails, the file is a whole one. */
  lemma SafeAlways(k: Kind, commands: seq<Command>, h: Course, log: seq<Files>, t: nat) returns (i: nat)
    requires Led(k, commands, h, log) && h.moments[0].time <= t < h.Last().time
    ensures i < |h.events| && h.moments[i].time <= t < h.moments[i + 1].time <= |log|
    ensures Safe(k, log[t], h.moments[i], h.moments[i + 1])
  {
    hide Moves, Present, Safe;
    i := UnderWay(k, commands, h, log, |h.events|, t);
    PresentAt(k, commands, h, log, i);
    PresentAt(k, commands, h, log, i + 1);
    assert Moves(k, commands[i], h.events[i], h.moments[i], h.moments[i + 1], log);
    SafeDuring(k, commands[i], h.events[i], h.moments[i], h.moments[i + 1], log, t);
  }

  lemma PresentAt(k: Kind, commands: seq<Command>, h: Course, log: seq<Files>, i: nat)
    requires Led(k, commands, h, log) && i <= |h.events|
    ensures Present(k, h.moments[i], log) && h.moments[i].time <= |log| && k.path in h.moments[i].files
  {
    hide Held, Effect, Suits, Verdict, Noted, Traced, ZipMeans, EntrySound;
    if i > 0 {
      assert Moves(k, commands[i - 1], h.events[i - 1], h.moments[i - 1], h.moments[i], log);
    }
  }

  /** All versions but the first are the file after one of the commands, and stand for what the archive held
      then. */
  ghost predicate Faithful(k: Kind, h: Course, versions: seq<Version>, n: nat) {
    && (forall v :: 0 < v < |versions| ==>
          && versions[v].step <= n && versions[v].step < |h.moments| && k.path in h.moments[versions[v].step].files
          && versions[v].bytes == h.moments[versions[v].step].files[k.path]
          && ZipMeans(versions[v].bytes, Held(k, h.moments[versions[v].step])))
    && (forall v, w :: 0 < v < w < |versions| ==> versions[v].step < versions[w].step)
  }

  /** The file is at every moment of the log one of a growing list of whole versions. */
  lemma {:induction false} Versioned(k: Kind, commands: seq<Command>, h: Course, log: seq<Files>, n: nat)
    returns (versions: seq<Version>, which: seq<nat>)
    requires Led(k, commands, h, log) && n <= |h.events|
    ensures k.path in h.moments[0].files && h.moments[n].time <= |log|
    ensures OnFile(log[..h.moments[n].time], h.moments[0].time, h.moments[n].files, k.path,
                   h.moments[0].files[k.path], versions, which)
    ensures Faithful(k, h, versions, n)
  {
    hide Held, Effect, Suits, Verdict, Noted, ZipMeans, ZipSound, AllOrNothing, Serves;
    PresentAt(k, commands, h, log, 0);
    PresentAt(k, commands, h, log, n);
    if n == 0 {
      versions, which := [Version(h.moments[0].files[k.path], 0)], [];
      FirstVersion(log[..h.moments[0].time], k.path, h.moments[0].files[k.path]);
    } else {
      versions, which := Versioned(k, commands, h, log, n - 1);
      assert Moves(k, commands[n - 1], h.events[n - 1], h.moments[n - 1], h.moments[n], log);
      versions, which := OneMoreVersion(log[..h.moments[n - 1].time], h.moments[0].time, h.moments[n - 1].files, k.path,
                                        h.moments[0].files[k.path], versions, which, h.moments[n].files,
                                        log[..h.moments[n].time], h.events[n - 1].published, n);
    }
  }
}
