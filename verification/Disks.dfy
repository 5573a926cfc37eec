/** The file system as the library sees it: named byte strings, open handles with a position, and
    calls that may fail at any time. A failed write may leave any prefix of its data behind. */
module Disks {
  import opened ByteStrings

  type Path = string
  type Files = map<Path, seq<byte>>
  type Handle = nat

  datatype Cursor = Cursor(path: Path, pos: nat)

  /** The form of the names temporary files get. */
  predicate TempName(p: Path) {
    |p| >= 11 && p[|p| - 11..|p| - 6] == "pakka"
  }

  /** How many times a set flag has been cleared. */
  class Ledger {
    ghost var cleared: nat
  }

  class Disk {
    var files: Files
    var cursors: map<Handle, Cursor>
    var next: Handle

    /** Some call on the system, including a request for memory, has failed since the flag was last cleared.
        What contracts say of it holds from whatever value it has, so clearing it before a call makes them
        speak of that call alone. */
    ghost var trouble: bool

    /** Where clearing the flag notes that it was set. */
    ghost const ledger: Ledger

    /** Every content the file system has had, up to the present one. */
    ghost var log: seq<Files>

    ghost predicate Valid()
      reads this`files, this`cursors, this`next, this`log
    {
      && |log| > 0 && log[|log| - 1] == files
      && (forall h <- cursors :: h < next)
    }

    /** The handle is open on a file that exists. */
    ghost predicate IsOpen(h: Handle)
      reads this`files, this`cursors
    {
      h in cursors && cursors[h].path in files
    }

    constructor (files: Files)
      ensures Valid() && this.files == files && log == [files] && cursors == map[] && !trouble
    {
      this.files, cursors, next, log, trouble := files, map[], 0, [files], false;
      ledger := new Ledger;
    }

    /** In how many stretches from one clearing of the flag to the next some call has failed. */
    ghost function Troubles(): nat
      reads this`trouble, ledger
    {
      ledger.cleared + if trouble then 1 else 0
    }

    /** From now on `trouble` speaks of later calls only. */
    ghost method Forget()
      modifies this`trouble, ledger
      ensures !trouble && Troubles() == old(Troubles())
    {
      ledger.cleared := Troubles();
      trouble := false;
    }

    /** Some call that only works or fails: a request for memory, a look at a file's kind. */
    method Works() returns (ok: bool)
      modifies this`trouble
      ensures trouble == (old(trouble) || !ok)
    {
      ok := *;
      trouble := trouble || !ok;
    }

    method Open(path: Path) returns (h: Option<Handle>)
      requires Valid()
      modifies this`cursors, this`next, this`trouble
      ensures Valid() && trouble == (old(trouble) || h.None?)
      ensures h.None? ==> cursors == old(cursors)
      ensures h.Some? ==>
        path in files && h.value !in old(cursors) && cursors == old(cursors)[h.value := Cursor(path, 0)]
    {
      var works := Works();
      if !works || path !in files {
        trouble := true;
        return None;
      }
      h := Some(next);
      cursors := cursors[next := Cursor(path, 0)];
      next := next + 1;
    }

    /** A new empty file under a temporary name nobody uses, opened. */
    method CreateTemp() returns (h: Option<(Handle, Path)>)
      requires Valid()
      modifies this
      ensures Valid() && trouble == (old(trouble) || h.None?)
      ensures h.None? ==> files == old(files) && log == old(log) && cursors == old(cursors)
      ensures h.Some? ==>
        && h.value.1 !in old(files) && TempName(h.value.1) && files == old(files)[h.value.1 := []]
             && log == old(log) + [files]
        && h.value.0 !in old(cursors) && cursors == old(cursors)[h.value.0 := Cursor(h.value.1, 0)]
    {
      var path: Path := *;
      if path in files || !TempName(path) {
        trouble := true;
        return None;
      }
      h := Some((next, path));
      files := files[path := []];
      log := log + [files];
      cursors := cursors[next := Cursor(path, 0)];
      next := next + 1;
    }

    method Seek(h: Handle, p: nat) returns (ok: bool)
      requires Valid() && IsOpen(h)
      modifies this`cursors, this`trouble
      ensures Valid() && cursors.Keys == old(cursors).Keys && trouble == (old(trouble) || !ok)
      ensures forall g <- cursors ::
        cursors[g].path == old(cursors)[g].path && (g != h ==> cursors[g] == old(cursors)[g])
      ensures ok ==> cursors[h].pos == p
    {
      ok := Works();
      var q :| q >= 0;
      cursors := cursors[h := Cursor(cursors[h].path, if ok then p else q)];
    }

    method Tell(h: Handle) returns (p: Option<nat>)
      requires IsOpen(h)
      modifies this`trouble
      ensures p.Some? ==> p.value == cursors[h].pos
      ensures trouble == (old(trouble) || p.None?)
    {
      var works := Works();
      p := if works then Some(cursors[h].pos) else None;
    }

    /** Moves to the end of the file and reports where that is. */
    method SeekEnd(h: Handle) returns (size: Option<nat>)
      requires Valid() && IsOpen(h)
      modifies this`cursors, this`trouble
      ensures Valid() && cursors.Keys == old(cursors).Keys && trouble == (old(trouble) || size.None?)
      ensures forall g <- cursors ::
        cursors[g].path == old(cursors)[g].path && (g != h ==> cursors[g] == old(cursors)[g])
      ensures size.Some? ==> size.value == |files[cursors[h].path]|
    {
      var ok := Seek(h, |files[cursors[h].path]|);
      if !ok {
        return None;
      }
      size := Tell(h);
    }

    /** Up to n bytes from the handle's position on; fewer at the end of the file or on failure. */
    method Read(h: Handle, n: nat) returns (data: seq<byte>)
      requires Valid() && IsOpen(h)
      modifies this`cursors, this`trouble
      ensures Valid() && cursors.Keys == old(cursors).Keys
      ensures forall g <- cursors :: g != h ==> cursors[g] == old(cursors)[g]
      ensures var c := old(cursors)[h];
              && |data| <= n && (data == [] || c.pos + |data| <= |files[c.path]|)
              && (data != [] ==> data == files[c.path][c.pos..c.pos + |data|])
              && cursors[h] == Cursor(c.path, c.pos + |data|)
              && trouble == (old(trouble) || |data| < Min(n, |files[c.path]| - c.pos))
    {
      var c := cursors[h];
      var there := if c.pos > |files[c.path]| then 0 else Min(n, |files[c.path]| - c.pos);
      var got :| 0 <= got <= there;
      trouble := trouble || got < there;
      data := if got == 0 then [] else files[c.path][c.pos..c.pos + got];
      cursors := cursors[h := Cursor(c.path, c.pos + got)];
    }

    /** All of the data at the handle's position, or some prefix of it. */
    method Write(h: Handle, data: seq<byte>) returns (ok: bool, ghost n: nat)
      requires Valid() && IsOpen(h)
      modifies this`cursors, this`files, this`log, this`trouble
      ensures Valid() && log == old(log) + [files] && cursors.Keys == old(cursors).Keys
      ensures trouble == (old(trouble) || !ok)
      ensures forall g <- cursors :: g != h ==> cursors[g] == old(cursors)[g]
      ensures n <= |data| && (ok ==> n == |data|) && Wrote(old(files), old(cursors)[h], data[..n], files, cursors[h])
    {
      var c := cursors[h];
      var k :| 0 <= k <= |data|;
      ok, n := k == |data|, k;
      trouble := trouble || !ok;
      files := files[c.path := Splice(files[c.path], c.pos, data[..k])];
      log := log + [files];
      cursors := cursors[h := Cursor(c.path, c.pos + k)];
    }

    method Close(h: Handle) returns (ok: bool)
      requires Valid() && h in cursors
      modifies this`cursors, this`trouble
      ensures Valid() && cursors == old(cursors) - {h} && trouble == (old(trouble) || !ok)
    {
      ok := Works();
      cursors := cursors - {h};
    }

    method Remove(path: Path)
      requires Valid()
      modifies this`files, this`log, this`trouble
      ensures Valid() && (files == old(files) || files == old(files) - {path})
      ensures log == old(log) + [files] && (old(trouble) ==> trouble)
    {
      var works := Works();
      if works { files := files - {path}; }
      log := log + [files];
    }

    /** Replaces `to` by `from` in one step, or does nothing. */
    method Rename(from: Path, to: Path) returns (ok: bool)
      requires Valid() && from in files && from != to
      modifies this`files, this`log, this`trouble
      ensures Valid() && log == old(log) + [files] && trouble == (old(trouble) || !ok)
      ensures files == if ok then (old(files) - {from})[to := old(files)[from]] else old(files)
    {
      ok := Works();
      if ok { files := (files - {from})[to := files[from]]; }
      log := log + [files];
    }

    /** As Rename, but refuses to replace an existing file. */
    method RenameNew(from: Path, to: Path) returns (ok: bool)
      requires Valid() && from in files
      modifies this`files, this`log, this`trouble
      ensures Valid() && log == old(log) + [files] && (old(trouble) ==> trouble)
      ensures ok ==> to !in old(files)
      ensures !ok && to !in old(files) ==> trouble
      ensures files == if ok then (old(files) - {from})[to := old(files)[from]] else old(files)
    {
      ok := Works();
      if to in files { ok := false; }
      if ok { files := (files - {from})[to := files[from]]; }
      log := log + [files];
    }
  }

  /** The written bytes are in place and the cursor is behind them. */
  ghost predicate Wrote(before: Files, c: Cursor, data: seq<byte>, after: Files, c': Cursor) {
    && c.path in before
    && after == before[c.path := Splice(before[c.path], c.pos, data)]
    && c' == Cursor(c.path, c.pos + |data|)
  }
}
