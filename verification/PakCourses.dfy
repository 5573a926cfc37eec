/** What archives go through: moments, the commands between them, and what holds of every course of commands. */
module PakCourses {
  import opened ByteStrings
  import opened Outcomes
  import opened PakFormat
  import opened PakDirectories
  import opened PakStates
  import opened PakCopying
  import opened PakRebuilding
  import opened PakArchives
  import opened PakLimits
  import opened EntryLists
  import opened Disks
  import opened Commands
  import opened Versions

  // ----- The reference: a list of items -----

  function Position(items: seq<Item>, name: seq<byte>): (i: nat)
    ensures i <= |items|
  {
    if items == [] || items[0].name == name then 0 else 1 + Position(items[1..], name)
  }

  /** What a command that succeeds does to the list; `item` is what an add adds. */
  function Effect(items: seq<Item>, c: Command, item: Item): seq<Item> {
    match c
    case AddBytes(_, _) => items + [item]
    case AddFrom(_, _) => items + [item]
    case Remove(name) =>
      var i := Position(items, name);
      if i < |items| then items[..i] + items[i + 1..] else items
    case Rename(name, newName) =>
      var i := Position(items, name);
      if i < |items| then items[i := items[i].(name := newName)] else items
    case CopyAs(name, copyName) =>
      var i := Position(items, name);
      if i < |items| then items + [items[i].(name := copyName)] else items
    case Save => items
  }

  /** An add adds an item of its name that holds its content. */
  ghost predicate Suits(c: Command, item: Item, files: Files) {
    match c
    case AddBytes(name, data) => item.name == name && item.Denotes(data)
    case AddFrom(name, source) => item.name == name && source in files && item.Denotes(files[source])
    case _ => true
  }

  lemma {:induction false} PositionIs(files: Files, path: Path, rows: seq<Row>, name: seq<byte>)
    ensures Position(Items(files, path, rows), name) == IndexOf(rows, name)
  {
    if rows != [] {
      PositionIs(files, path, rows[1..], name);
      assert Items(files, path, rows)[1..] == Items(files, path, rows[1..]);
    }
  }

  /** Names are C strings, and the archive is not added to itself. */
  predicate Sensible(c: Command, path: Path) {
    match c
    case AddBytes(name, _) => 0 !in name
    case AddFrom(name, source) => 0 !in name && source != path
    case Remove(_) => true
    case Rename(_, newName) => 0 !in newName
    case CopyAs(_, copyName) => 0 !in copyName
    case Save => true
  }

  // ----- Moments -----

  /** What an archive is, whatever it holds. */
  datatype Kind = Kind(format: Format, path: Path, atomic: bool)

  /** An archive between two commands: how many moments the log has, the files, the entries and the end of their
      payloads, whether it can be written to, whether it differs from its file, whether a commit has to rebuild
      it, and whether a write behind the payloads has failed since the last commit. */
  datatype Moment = Moment(time: nat, files: Files, rows: seq<Row>, end: nat, open: bool, dirty: bool, rebuild: bool,
                           torn: bool)

  ghost function KindOf(a: Archive): Kind {
    Kind(a.format, a.path, a.atomic)
  }

  ghost function Now(a: Archive): Moment
    reads a, a.disk, a.list, a.list.nodes
  {
    Moment(|a.disk.log|, a.disk.files, a.list.Rows(), a.payloadEnd, a.writable && a.fp.Some?, a.dirty,
           a.atomic || a.needsRebuild, a.torn)
  }

  ghost function Held(k: Kind, m: Moment): seq<Item> {
    Items(m.files, k.path, m.rows)
  }

  /** The moment is one of the log, its state is sound, and unless it is dirty or a write has failed the file
      opens as what it holds. */
  ghost predicate Present(k: Kind, m: Moment, log: seq<Files>) {
    && 0 < m.time <= |log| && log[m.time - 1] == m.files
    && Sound(k.format, m.rows, m.end, m.files, k.path)
    && (m.dirty || m.torn || Means(m.files[k.path], k.format, Held(k, m)))
    && (k.atomic ==> m.rebuild && !m.torn)
  }

  // ----- From one moment to the next -----

  /** How a command ends. If every call works, the status is settled by what it finds; if one fails, the status is
      that of a fault or one that has its reason all the same. */
  ghost predicate Verdict(k: Kind, c: Command, s: Status, m: Moment, failed: bool) {
    match c
    case AddBytes(name, data) => AddEnds(s, k.format, m.rows, name, data, m.open, k.atomic, m.end, failed)
    case AddFrom(name, source) =>
      if source in m.files then AddEnds(s, k.format, m.rows, name, m.files[source], m.open, k.atomic, m.end, failed)
      else if !m.open then s == InvalidArgument
      else if Preflight(k.format, m.rows, name) != Ok then s == Preflight(k.format, m.rows, name)
      else s in {UnsafeName, IoError}
    case Remove(name) => s == if !m.open then InvalidArgument else if Absent(m.rows, name) then NotFound else Ok
    case Rename(name, newName) =>
      s == if !m.open then InvalidArgument else if Absent(m.rows, name) then NotFound
           else if name == newName then Ok else Preflight(k.format, m.rows, newName)
    case CopyAs(name, copyName) =>
      || (failed && s == NoMemory)
      || s == if !m.open then InvalidArgument else if Absent(m.rows, name) then NotFound
              else Preflight(k.format, m.rows, copyName)
    case Save =>
      if !m.dirty then s == Ok
      else if !m.open then s == InvalidArgument
      else if failed then s == Ok || s.Fault() || Excused(s, m.files, k.format, m.rows, m.end, m.rebuild)
      else if Committable(m.files, k.format, m.rows, m.end, m.rebuild) then s == Ok
      else Uncommittable(s, m.files, k.format, m.rows, m.end, m.rebuild)
  }

  predicate Absent(rows: seq<Row>, name: seq<byte>) {
    IndexOf(rows, name) == |rows|
  }

  /** How the state goes on. A commit that succeeds leaves nothing to write; any other command that fails leaves
      the state as it was; an add in plain mode moves the end of the payloads by what it has written. */
  ghost predicate Noted(k: Kind, c: Command, e: Event<Item>, m: Moment, m': Moment) {
    && (m'.torn ==> m.torn || e.status == IoError)
    && if c == Save then
         && (e.status == Ok <==> !m'.dirty) && (e.status == Ok ==> m'.rebuild == k.atomic)
         && (m.dirty && e.status == Ok ==> !m'.torn) && (!m.dirty ==> m'.torn == m.torn)
         && ((m.dirty && m.rebuild && e.published) || (m'.rows == m.rows && m'.end == m.end))
       else if e.status != Ok then
         m'.rows == m.rows && m'.end == m.end && m'.dirty == m.dirty && m'.rebuild == m.rebuild
       else
         && (if c.Rename? && c.name == c.newName then m'.rows == m.rows && m'.dirty == m.dirty else m'.dirty)
         && m'.end == (if (c.AddBytes? || c.AddFrom?) && !k.atomic then m.end + |e.added.body| else m.end)
         && m'.rebuild == (m.rebuild || c.Remove?)
  }

  /** The file at the moments in between: where it is replaced as a whole, it is the old one or, once published,
      the new one, which opens as the archive; otherwise every entry keeps its bytes. */
  ghost predicate Traced(k: Kind, c: Command, e: Event<Item>, m: Moment, m': Moment, log: seq<Files>)
    requires m.time <= m'.time <= |log|
  {
    if k.atomic || (c == Save && m.rebuild) then
      && AllOrNothing(m.files, log[..m.time], m'.files, log[..m'.time], k.path, e.published)
      && (e.published ==> k.path in m'.files && Means(m'.files[k.path], k.format, Held(k, m')))
    else
      && !e.published
      && forall t :: m.time <= t < m'.time ==> Items(log[t], k.path, m.rows) == Held(k, m)
  }

  /** What every command guarantees, whether it succeeds or not. */
  ghost predicate Moves(k: Kind, c: Command, e: Event<Item>, m: Moment, m': Moment, log: seq<Files>) {
    && Present(k, m', log) && m.time <= m'.time
    && Held(k, m') == (if e.status == Ok then Effect(Held(k, m), c, e.added) else Held(k, m))
    && (e.status == Ok ==> Suits(c, e.added, m.files))
    && Verdict(k, c, e.status, m, e.failed)
    && Noted(k, c, e, m, m') && Traced(k, c, e, m, m', log)
  }

  /** What comes of a command that adds nothing. */
  const NOTHING: Item := Item([], 0, false, [])

  /** The command has taken the archive from what it was to what it is. */
  twostate predicate Followed(a: Archive, c: Command, e: Event<Item>)
    reads a, a.disk, a.list, a.list.nodes
  {
    && a.Valid() && (old(a.disk.trouble) ==> a.disk.trouble) && e.failed == a.disk.trouble
    && old(a.disk.log) <= a.disk.log
    && (forall i :: 0 <= i < |a.list.nodes| ==> a.list.nodes[i] in old(a.list.nodes) || fresh(a.list.nodes[i]))
    && Moves(KindOf(a), c, e, old(Now(a)), Now(a), a.disk.log)
    && HandleKept(c, e.failed, old(Now(a)).open, Now(a).open)
  }

  lemma ConfinedGrows(f0: Files, l0: seq<Files>, f1: Files, l1: seq<Files>, p: Path, end: nat)
    requires Confined(f0, l0, f1, l1, p, end)
    ensures l0 <= l1 && p in f1 && Kept(f0, f1, p)
  {}

  lemma AllOrNothingGrows(f0: Files, l0: seq<Files>, f1: Files, l1: seq<Files>, p: Path, published: bool)
    requires AllOrNothing(f0, l0, f1, l1, p, published)
    ensures l0 <= l1 && p in f1 && Kept(f0, f1, p)
  {}

  /** A replacement of the file as a whole, told by the positions in the log. */
  lemma TracedWhole(k: Kind, c: Command, e: Event<Item>, m: Moment, m': Moment, log0: seq<Files>, log: seq<Files>)
    requires m.time == |log0| && m'.time == |log| && (k.atomic || (c == Save && m.rebuild))
    requires AllOrNothing(m.files, log0, m'.files, log, k.path, e.published)
    requires e.published ==> k.path in m'.files && Means(m'.files[k.path], k.format, Held(k, m'))
    ensures log0 <= log && Traced(k, c, e, m, m', log)
  {
    hide Means, Held, OldOrNew, Kept;
    assert log[..|log0|] == log0 && log[..|log|] == log;
  }

  /** Writes behind the payloads, told likewise. */
  lemma TracedBehind(k: Kind, c: Command, e: Event<Item>, m: Moment, m': Moment, log0: seq<Files>, log: seq<Files>)
    requires m.time == |log0| && m'.time == |log| && !k.atomic && !(c == Save && m.rebuild) && !e.published
    requires Sound(k.format, m.rows, m.end, m.files, k.path) && !AnyStaged(m.rows)
    requires Confined(m.files, log0, m'.files, log, k.path, m.end)
    ensures log0 <= log && Traced(k, c, e, m, m', log)
  {
    hide Sound, AnyStaged, Beyond;
    ConfinedKeepsItems(k.format, m.rows, m.files, log0, m'.files, log, k.path, m.end);
  }

  /** A commit that has nothing to do. */
  lemma NothingToSave(k: Kind, e: Event<Item>, m: Moment, log: seq<Files>)
    requires Present(k, m, log) && !m.dirty && m.rebuild == k.atomic && m.time == |log|
    requires e == Event(Ok, NOTHING, e.failed, false)
    ensures Moves(k, Save, e, m, m, log)
  {
    hide Means, Held, Sound, AllOrNothing;
    assert k.path in m.files by { SoundEnd(k.format, m.rows, m.end, m.files, k.path); }
    NothingHappened(m.files, log, k.path);
    assert log[..|log|] == log;
  }

  lemma NowPresent(a: Archive)
    requires a.Valid()
    ensures Present(KindOf(a), Now(a), a.disk.log)
    ensures a.path in a.disk.files && a.Contents() == Held(KindOf(a), Now(a))
  {
    hide Sound, Filed, EntryList.ListValid, AnyStaged, Items, Means;
    assert a.disk.log[|a.disk.log| - 1] == a.disk.files;
    SoundEnd(a.format, a.list.Rows(), a.payloadEnd, a.disk.files, a.path);
    if !a.dirty && !a.torn { a.CleanMeans(); }
  }

  // ----- Courses -----

  type Course = History<Item, Moment>

  /** Every command led from the moment before it to the one after it. */
  ghost predicate Led(k: Kind, commands: seq<Command>, h: Course, log: seq<Files>) {
    && h.Fits(commands) && Present(k, h.moments[0], log)
    && forall i :: 0 <= i < |h.events| ==> Moves(k, commands[i], h.events[i], h.moments[i], h.moments[i + 1], log)
  }

  /** During the first n commands the archive has been as open as they allow. */
  ghost predicate KeptOpen(commands: seq<Command>, h: Course, n: nat)
    requires h.Fits(commands) && n <= |h.events|
  {
    forall i :: 0 <= i < n ==>
      HandleKept(commands[i], h.events[i].failed, h.moments[i].open, h.moments[i + 1].open)
  }

  lemma MovesStay(k: Kind, c: Command, e: Event<Item>, m: Moment, m': Moment, log: seq<Files>, more: seq<Files>)
    requires Moves(k, c, e, m, m', log) && log <= more
    ensures Moves(k, c, e, m, m', more)
  {
    hide Verdict, Noted, Suits, Effect, Means, Items, Sound, AllOrNothing;
    assert more[..m.time] == log[..m.time] && more[..m'.time] == log[..m'.time];
  }

  lemma PresentStays(k: Kind, m: Moment, log: seq<Files>, more: seq<Files>)
    requires Present(k, m, log) && log <= more
    ensures Present(k, m, more)
  {
    hide Means, Items, Sound;
  }

  lemma Starts(k: Kind, commands: seq<Command>, m: Moment, log: seq<Files>)
    requires Present(k, m, log)
    ensures Led(k, commands, History([], [m]), log) && KeptOpen(commands, History([], [m]), 0)
  {}

  lemma OneMore(k: Kind, commands: seq<Command>, h: Course, log: seq<Files>, e: Event<Item>, m: Moment,
                more: seq<Files>)
    requires Led(k, commands, h, log) && log <= more && |h.events| < |commands|
    requires Moves(k, commands[|h.events|], e, h.Last(), m, more)
    ensures Led(k, commands, h.Then(e, m), more)
  {
    hide Moves, Present;
    PresentStays(k, h.moments[0], log, more);
    forall i | 0 <= i < |h.events| ensures Moves(k, commands[i], h.events[i], h.moments[i], h.moments[i + 1], more) {
      MovesStay(k, commands[i], h.events[i], h.moments[i], h.moments[i + 1], log, more);
    }
  }

  lemma OneMoreOpen(commands: seq<Command>, h: Course, e: Event<Item>, m: Moment)
    requires h.Fits(commands) && KeptOpen(commands, h, |h.events|) && |h.events| < |commands|
    requires HandleKept(commands[|h.events|], e.failed, h.Last().open, m.open)
    ensures KeptOpen(commands, h.Then(e, m), |h.events| + 1)
  {}

  lemma MoreToCome(k: Kind, commands: seq<Command>, more: seq<Command>, h: Course, log: seq<Files>)
    requires Led(k, commands, h, log) && commands <= more
    ensures Led(k, more, h, log)
    ensures KeptOpen(commands, h, |h.events|) ==> KeptOpen(more, h, |h.events|)
  {
    hide Moves, Present;
  }

  // ----- What follows for every course -----

  /** The reference list after the first n commands. */
  ghost function Replay(items: seq<Item>, commands: seq<Command>, events: seq<Event<Item>>, n: nat): seq<Item>
    requires n <= |events| <= |commands|
  {
    if n == 0 then items
    else
      var before := Replay(items, commands, events, n - 1);
      if events[n - 1].status == Ok then Effect(before, commands[n - 1], events[n - 1].added) else before
  }

  /** After every command the archive holds the replay of those that succeeded. */
  lemma {:induction false} Replayed(k: Kind, commands: seq<Command>, h: Course, log: seq<Files>, n: nat)
    requires Led(k, commands, h, log) && n <= |h.events|
    ensures Held(k, h.moments[n]) == Replay(Held(k, h.moments[0]), commands, h.events, n)
  {
    hide Held, Effect, Present, Suits, Verdict, Noted, Traced;
    if n > 0 {
      Replayed(k, commands, h, log, n - 1);
      assert Moves(k, commands[n - 1], h.events[n - 1], h.moments[n - 1], h.moments[n], log);
    }
  }

  /** The archive is open after n commands exactly if it was before them and no commit among them, during which
      a call failed, has lost its handle; it is certainly open as long as no call fails during a commit. */
  lemma {:induction false} OpenUntil(commands: seq<Command>, h: Course, n: nat)
    requires h.Fits(commands) && n <= |h.events| && KeptOpen(commands, h, n)
    ensures h.moments[n].open ==> h.moments[0].open
    ensures (forall i :: 0 <= i < n && commands[i] == Save ==> !h.events[i].failed) ==>
              h.moments[n].open == h.moments[0].open
  {
    if n > 0 {
      OpenUntil(commands, h, n - 1);
      assert HandleKept(commands[n - 1], h.events[n - 1].failed, h.moments[n - 1].open, h.moments[n].open);
    }
  }

  /** Only a command that reports an input or output error can leave a clean archive's file in doubt. */
  lemma {:induction false} UntornUntil(k: Kind, commands: seq<Command>, h: Course, log: seq<Files>, n: nat)
    requires Led(k, commands, h, log) && n <= |h.events|
    ensures h.moments[n].torn ==> h.moments[0].torn || exists i :: 0 <= i < n && h.events[i].status == IoError
  {
    hide Held, Effect, Present, Suits, Verdict, Traced;
    if n > 0 {
      UntornUntil(k, commands, h, log, n - 1);
      assert Moves(k, commands[n - 1], h.events[n - 1], h.moments[n - 1], h.moments[n], log);
    }
  }

  /** The command under way at a moment of the log. */
  lemma {:induction false} UnderWay(k: Kind, commands: seq<Command>, h: Course, log: seq<Files>, n: nat, t: nat)
    returns (i: nat)
    requires Led(k, commands, h, log) && n <= |h.events| && h.moments[0].time <= t < h.moments[n].time
    ensures i < n && h.moments[i].time <= t < h.moments[i + 1].time
  {
    hide Moves, Present;
    if t >= h.moments[n - 1].time {
      i := n - 1;
    } else {
      i := UnderWay(k, commands, h, log, n - 1, t);
    }
  }

  /** Either every entry that the archive had before the command under way keeps its bytes, or the file is already
      one that opens as the archive after the command. */
  ghost predicate Safe(k: Kind, now: Files, m: Moment, m': Moment) {
    || Items(now, k.path, m.rows) == Held(k, m)
    || (k.path in now && Means(now[k.path], k.format, Held(k, m')))
  }

  lemma {:induction false} UnpublishedKeepsItems(fmt: Format, rows: seq<Row>, end: nat, before: Files, now: Files,
                                                 path: Path)
    requires Sound(fmt, rows, end, before, path) && Kept(before, now, path)
    requires path in now && now[path] == before[path]
    ensures Items(now, path, rows) == Items(before, path, rows)
  {
    forall r | r in rows ensures ItemOf(now, path, r) == ItemOf(before, path, r) {
      assert RowSound(fmt, r, end, before, path);
    }
  }

  lemma SafeDuring(k: Kind, c: Command, e: Event<Item>, m: Moment, m': Moment, log: seq<Files>, t: nat)
    requires Present(k, m, log) && Moves(k, c, e, m, m', log) && m.time <= t < m'.time
    ensures Safe(k, log[t], m, m')
  {
    hide Means, Sound, Items, Effect, Suits, Verdict, Noted, Kept;
    if k.atomic || (c == Save && m.rebuild) {
      assert log[..m'.time][t] == log[t];
      assert OldOrNew(m.files, log[t], m'.files, k.path, e.published);
      if log[t][k.path] == m.files[k.path] {
        UnpublishedKeepsItems(k.format, m.rows, m.end, m.files, log[t], k.path);
      }
    }
  }

  /** At every moment of a course, whatever fails, no bytes of an entry have been overwritten. */
  lemma SafeAlways(k: Kind, commands: seq<Command>, h: Course, log: seq<Files>, t: nat) returns (i: nat)
    requires Led(k, commands, h, log) && h.moments[0].time <= t < h.Last().time
    ensures i < |h.events| && h.moments[i].time <= t < h.moments[i + 1].time <= |log|
    ensures Safe(k, log[t], h.moments[i], h.moments[i + 1])
  {
    hide Moves, Present, Safe;
    i := UnderWay(k, commands, h, log, |h.events|, t);
    PresentAt(k, commands, h, log, i);
    PresentAt(k, commands, h, log, i + 1);
    assert Moves(k, commands[i], h.events[i], h.moments[i], h.moments[i + 1], log);
    SafeDuring(k, commands[i], h.events[i], h.moments[i], h.moments[i + 1], log, t);
  }

  lemma PresentAt(k: Kind, commands: seq<Command>, h: Course, log: seq<Files>, i: nat)
    requires Led(k, commands, h, log) && i <= |h.events|
    ensures Present(k, h.moments[i], log) && h.moments[i].time <= |log|
  {
    hide Held, Effect, Suits, Verdict, Noted, Traced, Means, Sound;
    if i > 0 {
      assert Moves(k, commands[i - 1], h.events[i - 1], h.moments[i - 1], h.moments[i], log);
    }
  }

  /** All versions but the first are the file after one of the commands, and open as what the archive held then. */
  ghost predicate Faithful(k: Kind, h: Course, versions: seq<Version>, n: nat) {
    && (forall v :: 0 < v < |versions| ==>
          && versions[v].step <= n && versions[v].step < |h.moments| && k.path in h.moments[versions[v].step].files
          && versions[v].bytes == h.moments[versions[v].step].files[k.path]
          && Means(versions[v].bytes, k.format, Held(k, h.moments[versions[v].step])))
    && (forall v, w :: 0 < v < w < |versions| ==> versions[v].step < versions[w].step)
  }

  /** In atomic mode the file is at every moment of the log one of a growing list of whole versions. */
  lemma {:induction false} Versioned(k: Kind, commands: seq<Command>, h: Course, log: seq<Files>, n: nat)
    returns (versions: seq<Version>, which: seq<nat>)
    requires Led(k, commands, h, log) && n <= |h.events| && k.atomic
    ensures k.path in h.moments[0].files && h.moments[n].time <= |log|
    ensures OnFile(log[..h.moments[n].time], h.moments[0].time, h.moments[n].files, k.path,
                   h.moments[0].files[k.path], versions, which)
    ensures Faithful(k, h, versions, n)
  {
    hide Held, Effect, Suits, Verdict, Noted, Means, Sound, AllOrNothing, Serves;
    InPlace(k, commands, h, log, 0);
    InPlace(k, commands, h, log, n);
    if n == 0 {
      versions, which := [Version(h.moments[0].files[k.path], 0)], [];
      FirstVersion(log[..h.moments[0].time], k.path, h.moments[0].files[k.path]);
    } else {
      versions, which := Versioned(k, commands, h, log, n - 1);
      assert Moves(k, commands[n - 1], h.events[n - 1], h.moments[n - 1], h.moments[n], log);
      versions, which := OneMoreVersion(log[..h.moments[n - 1].time], h.moments[0].time, h.moments[n - 1].files, k.path,
                                        h.moments[0].files[k.path], versions, which, h.moments[n].files,
                                        log[..h.moments[n].time], h.events[n - 1].published, n);
    }
  }

  lemma InPlace(k: Kind, commands: seq<Command>, h: Course, log: seq<Files>, i: nat)
    requires Led(k, commands, h, log) && i <= |h.events|
    ensures k.path in h.moments[i].files && h.moments[i].time <= |log|
  {
    hide Moves, Means, Held;
    PresentAt(k, commands, h, log, i);
  }
}
